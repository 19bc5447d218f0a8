/** The part of a pandas DataFrame that the pipeline relies on: named columns,
    row labels (the index) and rows of cells, with the in-place operations the
    scripts call (`drop`, `rename`, `reset_index`, `df.loc[i, c] = v`) and the
    value-returning ones (`df[[...]]`, `df.loc[i, c]`). */
module Frames {
  import opened Text
  import opened Wrappers

  /** One cell: text, an integer, a float (as a real) or NaN/None. */
  datatype Value = Str(s: string) | Int(i: int) | Real(r: real) | Missing

  predicate IsNumber(v: Value) {
    v.Int? || v.Real?
  }

  function AsReal(v: Value): real
    requires IsNumber(v)
  {
    if v.Int? then v.i as real else v.r
  }

  /** A row's cells, in the order of the table's columns. */
  type Row = seq<Value>

  datatype Table<N> = Table(columns: seq<N>, index: seq<nat>, rows: seq<Row>)

  /** The exceptions the pipeline can raise while transforming a table. */
  datatype Error =
    | KeyError                       // a column that is not there
    | AttributeError                 // `df.name` for a column that is not there
    | LabelError(at: nat)            // `df.loc[label, ...]` for a label the index lacks
    | TypeError                      // arithmetic or comparison involving text
    | ValueError                     // a date that does not parse; a clashing inserted column
    | OverflowError                  // the day before 0001-01-01
    | DuplicateColumn  // two columns would share a name

  datatype Result<T> = Ok(value: T) | Err(error: Error) {
    predicate IsFailure() {
      Err?
    }

    function PropagateFailure<U>(): Result<U>
      requires Err?
    {
      Err(error)
    }

    function Extract(): T
      requires Ok?
    {
      value
    }
  }

  datatype Outcome = Pass | Fail(error: Error)

  /** Positions `i < j` of `s` hold different elements. */
  predicate Apart<T(==)>(s: seq<T>, i: int, j: int) {
    0 <= i < j < |s| && s[i] != s[j]
  }

  /** No element of `s` occurs twice. The quantifier fires only on the `Apart`
      pairs a proof mentions, not on every pair of indexed elements. */
  predicate Distinct<T(==)>(s: seq<T>) {
    forall i, j {:trigger Apart(s, i, j)} :: 0 <= i < j < |s| ==> Apart(s, i, j)
  }

  /** Two positions of a distinct sequence hold different elements. */
  lemma DistinctAt<T>(s: seq<T>, i: nat, j: nat)
    requires Distinct(s) && i < |s| && j < |s| && i != j
    ensures s[i] != s[j]
  {
    if i < j { assert Apart(s, i, j); } else { assert Apart(s, j, i); }
  }

  /** Appending an element `s` lacks keeps `s` distinct. */
  lemma DistinctAppend<T>(s: seq<T>, x: T)
    requires Distinct(s) && x !in s
    ensures Distinct(s + [x])
  {
    forall i, j | 0 <= i < j < |s| + 1
      ensures Apart(s + [x], i, j)
    {
      if j < |s| { assert Apart(s, i, j); }
    }
  }

  /** Prepending an element `s` lacks keeps `s` distinct. */
  lemma DistinctPrepend<T>(x: T, s: seq<T>)
    requires Distinct(s) && x !in s
    ensures Distinct([x] + s)
  {
    forall i, j | 0 <= i < j < |s| + 1
      ensures Apart([x] + s, i, j)
    {
      if 0 < i { assert Apart(s, i - 1, j - 1); }
    }
  }

  /** A prefix of a distinct sequence is distinct. */
  lemma DistinctPrefix<T>(s: seq<T>, n: nat)
    requires Distinct(s) && n <= |s|
    ensures Distinct(s[..n])
  {
    forall i, j | 0 <= i < j < n
      ensures Apart(s[..n], i, j)
    {
      assert Apart(s, i, j);
    }
  }

  /** Two names are distinct exactly when they differ. */
  lemma DistinctPair<T>(a: T, b: T)
    ensures Distinct([a, b]) <==> a != b
  {
    var s := [a, b];
    if a != b {
      forall i, j | 0 <= i < j < |s|
        ensures Apart(s, i, j)
      {
        assert i == 0 && j == 1;
      }
    } else {
      assert !Apart(s, 0, 1);
    }
  }

  /** A sequence whose elements differ pairwise is distinct. */
  lemma DistinctIntro<T>(s: seq<T>)
    requires forall i, j :: 0 <= i < j < |s| ==> s[i] != s[j]
    ensures Distinct(s)
  {
  }

  /** Column names are distinct, row labels are distinct, one label per row and
      one cell per column in every row. */
  predicate WellFormed<N(==, !new)>(t: Table<N>) {
    && Distinct(t.columns)
    && Distinct(t.index)
    && |t.index| == |t.rows|
    && forall p :: 0 <= p < |t.rows| ==> |t.rows[p]| == |t.columns|
  }

  /** The labels 0..n-1 of a fresh RangeIndex. */
  function Range(n: nat): (r: seq<nat>)
    ensures |r| == n && Distinct(r)
    ensures forall i :: 0 <= i < n ==> r[i] == i
  {
    seq(n, i requires 0 <= i => i as nat)
  }

  function Position<T(==)>(s: seq<T>, x: T): (k: nat)
    requires x in s
    ensures k < |s| && s[k] == x
  {
    if s[0] == x then 0 else 1 + Position(s[1..], x)
  }

  lemma {:induction false} PositionOfDistinct<T>(s: seq<T>, k: nat)
    requires Distinct(s) && k < |s|
    ensures Position(s, s[k]) == k
  {
    if k > 0 {
      assert Apart(s, 0, k);
      assert s[1..][k - 1] == s[k];
      assert Distinct(s[1..]) by {
        forall i, j | 0 <= i < j < |s| - 1
          ensures Apart(s[1..], i, j)
        {
          assert Apart(s, i + 1, j + 1);
        }
      }
      PositionOfDistinct(s[1..], k - 1);
    }
  }

  /** `s` without its element at position `k`. */
  function Without<T>(s: seq<T>, k: nat): (r: seq<T>)
    requires k < |s|
    ensures |r| == |s| - 1
    ensures forall i :: 0 <= i < |r| ==> r[i] == if i < k then s[i] else s[i + 1]
  {
    s[..k] + s[k + 1..]
  }

  /** Removing one element of a distinct sequence removes exactly that element. */
  lemma WithoutDistinct<T>(s: seq<T>, k: nat)
    requires Distinct(s) && k < |s|
    ensures Distinct(Without(s, k))
    ensures forall x :: x in Without(s, k) <==> x in s && x != s[k]
  {
    var r := Without(s, k);
    forall i, j | 0 <= i < j < |r|
      ensures Apart(r, i, j)
    {
      DistinctAt(s, if i < k then i else i + 1, if j < k then j else j + 1);
    }
    forall x | x in r
      ensures x in s && x != s[k]
    {
      var i :| 0 <= i < |r| && r[i] == x;
      DistinctAt(s, if i < k then i else i + 1, k);
    }
    forall x | x in s && x != s[k]
      ensures x in r
    {
      var i :| 0 <= i < |s| && s[i] == x;
      assert r[if i < k then i else i - 1] == x;
    }
  }

  /** The first name of `names` that `have` lacks, if any. */
  function FirstAbsent<N(==, !new)>(names: seq<N>, have: seq<N>): (r: Option<N>)
    ensures r.None? <==> forall c :: c in names ==> c in have
    ensures r.Some? ==> r.value in names && r.value !in have
  {
    if |names| == 0 then None
    else if names[0] !in have then Some(names[0])
    else
      var r := FirstAbsent(names[1..], have);
      assert forall c :: c in names ==> c == names[0] || c in names[1..];
      r
  }

  /** The cell of row position `p` in column `c`. */
  function Cell<N(==, !new)>(t: Table<N>, p: nat, c: N): Value
    requires WellFormed(t) && p < |t.rows| && c in t.columns
  {
    t.rows[p][Position(t.columns, c)]
  }

  function Column<N(==, !new)>(t: Table<N>, c: N): (col: seq<Value>)
    requires WellFormed(t) && c in t.columns
    ensures |col| == |t.rows| && forall p :: 0 <= p < |col| ==> col[p] == Cell(t, p, c)
  {
    seq(|t.rows|, p requires 0 <= p < |t.rows| => Cell(t, p, c))
  }

  /** Where the row labelled `lbl` is, if there is one. */
  function LabelPos(index: seq<nat>, lbl: nat): (r: Option<nat>)
    ensures r.None? <==> lbl !in index
    ensures r.Some? ==> r.value < |index| && index[r.value] == lbl
  {
    if lbl in index then Some(Position(index, lbl)) else None
  }

  // ---------------------------------------------------------------------------
  // Value-level operations.

  /** `df.drop(c, axis=1)`: KeyError when there is no such column. */
  function DropColumn<N(==, !new)>(t: Table<N>, c: N): (r: Result<Table<N>>)
    requires WellFormed(t)
    ensures r.Ok? <==> c in t.columns
    ensures r.Ok? ==> WellFormed(r.value) && r.value.index == t.index && |r.value.rows| == |t.rows|
    ensures r.Ok? ==> r.value.columns == Without(t.columns, Position(t.columns, c))
    ensures r.Ok? ==> forall d :: d in r.value.columns <==> d in t.columns && d != c
    ensures r.Ok? ==> forall p, d :: 0 <= p < |t.rows| && d in r.value.columns ==> Cell(r.value, p, d) == Cell(t, p, d)
  {
    if c !in t.columns then Err(KeyError)
    else
      var k := Position(t.columns, c);
      var u := Table(Without(t.columns, k), t.index,
                     seq(|t.rows|, p requires 0 <= p < |t.rows| => Without(t.rows[p], k)));
      DropColumnCells(t, k, u);
      Ok(u)
  }

  lemma DropColumnCells<N(!new)>(t: Table<N>, k: nat, u: Table<N>)
    requires WellFormed(t) && k < |t.columns|
    requires u.columns == Without(t.columns, k) && u.index == t.index
    requires |u.rows| == |t.rows| && forall p :: 0 <= p < |t.rows| ==> u.rows[p] == Without(t.rows[p], k)
    ensures WellFormed(u)
    ensures forall d :: d in u.columns <==> d in t.columns && d != t.columns[k]
    ensures forall p, d :: 0 <= p < |t.rows| && d in u.columns ==> Cell(u, p, d) == Cell(t, p, d)
  {
    WithoutDistinct(t.columns, k);
    forall p, d | 0 <= p < |t.rows| && d in u.columns
      ensures Cell(u, p, d) == Cell(t, p, d)
    {
      var j := Position(u.columns, d);
      var i := if j < k then j else j + 1;
      assert t.columns[i] == d;
      PositionOfDistinct(t.columns, i);
    }
  }

  function Renamed<N(==, !new)>(m: map<N, N>, c: N): N {
    if c in m then m[c] else c
  }

  /** The names after renaming, position by position. */
  function RenamedAll<N(==, !new)>(m: map<N, N>, cols: seq<N>): (r: seq<N>)
    ensures |r| == |cols| && forall k :: 0 <= k < |cols| ==> r[k] == Renamed(m, cols[k])
  {
    seq(|cols|, k requires 0 <= k < |cols| => Renamed(m, cols[k]))
  }

  /** `df.rename(columns=m)`: every mapped name is replaced, names the map does
      not mention stay, keys that are not columns are ignored, and the cells do
      not move. */
  function RenameColumns<N(==, !new)>(t: Table<N>, m: map<N, N>): (r: Result<Table<N>>)
    requires WellFormed(t)
    ensures r.Ok? <==> Distinct(RenamedAll(m, t.columns))
    ensures r.Ok? ==> WellFormed(r.value) && r.value.index == t.index && r.value.rows == t.rows
    ensures r.Ok? ==> r.value.columns == RenamedAll(m, t.columns)
    ensures r.Ok? ==> forall p, c :: 0 <= p < |t.rows| && c in t.columns ==>
      Renamed(m, c) in r.value.columns && Cell(r.value, p, Renamed(m, c)) == Cell(t, p, c)
    ensures r.Err? ==> r.error.DuplicateColumn?
  {
    var cols := RenamedAll(m, t.columns);
    if !Distinct(cols) then Err(DuplicateColumn)
    else
      var u := Table(cols, t.index, t.rows);
      RenameCells(t, m, u);
      Ok(u)
  }

  lemma RenameCells<N(!new)>(t: Table<N>, m: map<N, N>, u: Table<N>)
    requires WellFormed(t) && u == Table(RenamedAll(m, t.columns), t.index, t.rows)
    requires Distinct(u.columns)
    ensures WellFormed(u)
    ensures forall p, c :: 0 <= p < |t.rows| && c in t.columns ==>
      Renamed(m, c) in u.columns && Cell(u, p, Renamed(m, c)) == Cell(t, p, c)
  {
    forall p, c | 0 <= p < |t.rows| && c in t.columns
      ensures Renamed(m, c) in u.columns && Cell(u, p, Renamed(m, c)) == Cell(t, p, c)
    {
      var k := Position(t.columns, c);
      assert u.columns[k] == Renamed(m, c);
      PositionOfDistinct(u.columns, k);
    }
  }

  /** The positions, in increasing order, of the cells `keep` accepts. */
  function Positions<T>(vals: seq<T>, keep: T -> bool): (ps: seq<nat>)
    ensures forall i :: 0 <= i < |ps| ==> ps[i] < |vals| && keep(vals[ps[i]])
    ensures forall i, j :: 0 <= i < j < |ps| ==> ps[i] < ps[j]
    ensures forall p :: 0 <= p < |vals| && keep(vals[p]) ==> p in ps
  {
    if |vals| == 0 then []
    else Positions(vals[..|vals| - 1], keep) + (if keep(vals[|vals| - 1]) then [|vals| - 1] else [])
  }

  /** `df.drop(df[~keep(df.c)].index)`: keep the rows whose cell in column `c`
      passes `keep`, with their labels, in their order. Labels are distinct, so
      dropping by label is dropping by position. */
  function FilterRows<N(==, !new)>(t: Table<N>, c: N, keep: Value -> bool): (r: Result<Table<N>>)
    requires WellFormed(t)
    ensures r.Ok? <==> c in t.columns
    ensures r.Ok? ==> WellFormed(r.value) && r.value.columns == t.columns
    ensures r.Ok? ==> exists ps: seq<nat> :: KeepsExactly(t, c, keep, ps) && r.value == Select(t, ps)
  {
    if c !in t.columns then Err(AttributeError)
    else
      var ps := Positions(Column(t, c), keep);
      SelectWellFormed(t, ps);
      Ok(Select(t, ps))
  }

  /** `ps` lists, in increasing order, exactly the positions of the rows whose
      cell in column `c` passes `keep`. */
  ghost predicate KeepsExactly<N(!new)>(t: Table<N>, c: N, keep: Value -> bool, ps: seq<nat>)
    requires WellFormed(t) && c in t.columns
  {
    && (forall i :: 0 <= i < |ps| ==> ps[i] < |t.rows| && keep(Cell(t, ps[i], c)))
    && (forall i, j :: 0 <= i < j < |ps| ==> ps[i] < ps[j])
    && (forall p :: 0 <= p < |t.rows| && keep(Cell(t, p, c)) ==> p in ps)
  }

  /** The rows at positions `ps`, with their labels. */
  function Select<N(==, !new)>(t: Table<N>, ps: seq<nat>): Table<N>
    requires forall i :: 0 <= i < |ps| ==> ps[i] < |t.rows| && ps[i] < |t.index|
  {
    Table(t.columns, seq(|ps|, i requires 0 <= i < |ps| => t.index[ps[i]]),
          seq(|ps|, i requires 0 <= i < |ps| => t.rows[ps[i]]))
  }

  lemma SelectWellFormed<N(!new)>(t: Table<N>, ps: seq<nat>)
    requires WellFormed(t)
    requires forall i :: 0 <= i < |ps| ==> ps[i] < |t.rows|
    requires forall i, j :: 0 <= i < j < |ps| ==> ps[i] < ps[j]
    ensures WellFormed(Select(t, ps))
  {
    var u := Select(t, ps);
    forall i, j | 0 <= i < j < |ps|
      ensures Apart(u.index, i, j)
    {
      DistinctAt(t.index, ps[i], ps[j]);
    }
  }

  /** `df.set_index(c)` whose new frame the caller discards: the frame stays
      as it was, but a missing column `c` still raises KeyError. */
  function SetIndexDiscarded<N(==, !new)>(t: Table<N>, c: N): (r: Result<Table<N>>)
    ensures r.Ok? <==> c in t.columns
    ensures r.Ok? ==> r.value == t
    ensures r.Err? ==> r.error == KeyError
  {
    if c in t.columns then Ok(t) else Err(KeyError)
  }

  /** The name `reset_index()` gives the column of old labels. */
  function IndexColumnName(cols: seq<string>): string {
    if "index" !in cols then "index" else "level_0"
  }

  /** `reset_index(drop=True)` relabels the rows 0..n-1; plain `reset_index()`
      also keeps the old labels, as a first column named `index` (`level_0` when
      `index` is taken, ValueError when both are). */
  function ResetIndex(t: Table<string>, drop: bool): (r: Result<Table<string>>)
    requires WellFormed(t)
    ensures r.Ok? <==> drop || IndexColumnName(t.columns) !in t.columns
    ensures r.Ok? ==> WellFormed(r.value) && r.value.index == Range(|t.rows|) && |r.value.rows| == |t.rows|
    ensures r.Ok? && drop ==> r.value.columns == t.columns && r.value.rows == t.rows
    ensures r.Ok? && !drop ==> r.value.columns == [IndexColumnName(t.columns)] + t.columns
    ensures r.Ok? && !drop ==> forall p :: 0 <= p < |t.rows| ==> Cell(r.value, p, IndexColumnName(t.columns)) == Int(t.index[p])
    ensures r.Ok? ==> forall p, d :: 0 <= p < |t.rows| && d in t.columns ==> Cell(r.value, p, d) == Cell(t, p, d)
  {
    if drop then Ok(Table(t.columns, Range(|t.rows|), t.rows))
    else
      var name := IndexColumnName(t.columns);
      if name in t.columns then Err(ValueError)
      else
        DistinctPrepend(name, t.columns);
        var u := Table([name] + t.columns, Range(|t.rows|),
                       seq(|t.rows|, p requires 0 <= p < |t.rows| => [Int(t.index[p])] + t.rows[p]));
        assert Position(u.columns, name) == 0;
        assert forall p, d :: 0 <= p < |t.rows| && d in t.columns ==> Cell(u, p, d) == Cell(t, p, d) by {
          forall p, d | 0 <= p < |t.rows| && d in t.columns
            ensures Cell(u, p, d) == Cell(t, p, d)
          {
            var k := Position(t.columns, d);
            assert u.columns[k + 1] == d;
            PositionOfDistinct(u.columns, k + 1);
          }
        }
        Ok(u)
  }

  /** The names of `cols` that are not in `names`, in order. */
  function Except<N(==, !new)>(cols: seq<N>, names: seq<N>): (rest: seq<N>)
    ensures forall c {:trigger c in rest} :: c in rest <==> c in cols && c !in names
    ensures |rest| <= |cols|
    ensures Distinct(cols) ==> Distinct(rest)
  {
    if |cols| == 0 then []
    else
      var init := Except(cols[..|cols| - 1], names);
      var last := cols[|cols| - 1];
      assert forall c :: c in cols <==> c in cols[..|cols| - 1] || c == last;
      if last in names then
        if Distinct(cols) then DistinctPrefix(cols, |cols| - 1); init else init
      else
        if Distinct(cols) then
          DistinctPrefix(cols, |cols| - 1);
          assert last !in cols[..|cols| - 1] by {
            forall i | 0 <= i < |cols| - 1
              ensures cols[i] != last
            {
              DistinctAt(cols, i, |cols| - 1);
            }
          }
          DistinctAppend(init, last);
          init + [last]
        else init + [last]
  }

  /** Extending `cols` by one name extends the names kept by that name, unless
      it is excluded. */
  lemma ExceptSnoc<N(!new)>(cols: seq<N>, names: seq<N>, n: nat)
    requires n < |cols|
    ensures Except(cols[..n + 1], names) == Except(cols[..n], names) + (if cols[n] in names then [] else [cols[n]])
  {
    assert cols[..n + 1][..n] == cols[..n];
  }

  lemma {:induction false} ExceptAppend<N(!new)>(a: seq<N>, b: seq<N>, names: seq<N>)
    ensures Except(a + b, names) == Except(a, names) + Except(b, names)
    decreases |b|
  {
    if |b| == 0 {
      assert a + b == a;
    } else {
      var c, m := a + b, |b| - 1;
      ExceptSnoc(c, names, |c| - 1);
      assert c[..|c|] == c && c[..|c| - 1] == a + b[..m];
      ExceptSnoc(b, names, m);
      assert b[..m + 1] == b;
      ExceptAppend(a, b[..m], names);
    }
  }

  /** Names that no element of `cols` tells apart exclude the same elements. */
  lemma {:induction false} ExceptAgree<N(!new)>(cols: seq<N>, names: seq<N>, others: seq<N>)
    requires forall c :: c in cols ==> (c in names <==> c in others)
    ensures Except(cols, names) == Except(cols, others)
    decreases |cols|
  {
    if |cols| > 0 {
      ExceptAgree(cols[..|cols| - 1], names, others);
    }
  }

  /** Dropping the column at `k` and then excluding `names` excludes that
      column together with `names`. */
  lemma ExceptWithout<N(!new)>(cols: seq<N>, k: nat, names: seq<N>)
    requires Distinct(cols) && k < |cols|
    ensures Except(Without(cols, k), names) == Except(cols, [cols[k]] + names)
  {
    ElsewhereAbsent(cols, k);
    assert cols == cols[..k] + ([cols[k]] + cols[k + 1..]);
    ExceptSkips(cols[..k], cols[k], cols[k + 1..], names);
  }

  lemma ExceptSkips<N(!new)>(before: seq<N>, x: N, after: seq<N>, names: seq<N>)
    requires x !in before && x !in after
    ensures Except(before + ([x] + after), [x] + names) == Except(before + after, names)
  {
    var more := [x] + names;
    ExceptAppend(before, [x] + after, more);
    ExceptLeading(x, after, more);
    ExceptAppend(before, after, names);
    ExceptAbsent(before, x, names);
    ExceptAbsent(after, x, names);
  }

  /** A leading column that is excluded contributes nothing. */
  lemma ExceptLeading<N(!new)>(x: N, after: seq<N>, names: seq<N>)
    requires x in names
    ensures Except([x] + after, names) == Except(after, names)
  {
    ExceptAppend([x], after, names);
    ExceptSnoc([x], names, 0);
    assert [x][..1] == [x] && [x][..0] == [];
  }

  /** Excluding a name that does not occur changes nothing. */
  lemma ExceptAbsent<N(!new)>(cols: seq<N>, x: N, names: seq<N>)
    requires x !in cols
    ensures Except(cols, names) == Except(cols, [x] + names)
  {
    forall c | c in cols
      ensures c in names <==> c in [x] + names
    {
      assert c != x;
    }
    ExceptAgree(cols, names, [x] + names);
  }

  /** The element at `k` of a distinct sequence occurs neither before nor after it. */
  lemma ElsewhereAbsent<T>(s: seq<T>, k: nat)
    requires Distinct(s) && k < |s|
    ensures s[k] !in s[..k] && s[k] !in s[k + 1..]
  {
    forall i | 0 <= i < |s| && i != k
      ensures s[i] != s[k]
    {
      DistinctAt(s, i, k);
    }
  }

  /** `df.drop(df[df.index < bound].index)`: keep the rows labelled `bound` or
      more, with their labels, in their order. */
  function DropLabelsBelow<N(==, !new)>(t: Table<N>, bound: nat): (u: Table<N>)
    requires WellFormed(t)
    ensures WellFormed(u) && u.columns == t.columns
    ensures exists ps: seq<nat> :: LabelledFrom(t, bound, ps) && u == Select(t, ps)
    ensures t.index == Range(|t.rows|) && bound <= |t.rows| ==>
      && u.rows == t.rows[bound..]
      && |u.index| == |t.rows| - bound && forall i :: 0 <= i < |u.index| ==> u.index[i] == bound + i
  {
    var ps := Positions(t.index, l => l >= bound);
    assert forall i :: 0 <= i < |ps| ==> ps[i] < |t.rows| && t.index[ps[i]] >= bound;
    assert forall p :: 0 <= p < |t.rows| && t.index[p] >= bound ==> p in ps;
    assert LabelledFrom(t, bound, ps);
    SelectWellFormed(t, ps);
    LabelsFrom(t, ps, bound);
    Select(t, ps)
  }

  /** `ps` lists, in increasing order, exactly the positions of `t` whose
      label is `bound` or more. */
  ghost predicate LabelledFrom<N(!new)>(t: Table<N>, bound: nat, ps: seq<nat>)
    requires WellFormed(t)
  {
    && (forall i :: 0 <= i < |ps| ==> ps[i] < |t.rows| && t.index[ps[i]] >= bound)
    && (forall i, j :: 0 <= i < j < |ps| ==> ps[i] < ps[j])
    && (forall p :: 0 <= p < |t.rows| && t.index[p] >= bound ==> p in ps)
  }

  /** The positions of the labels `bound` or more, on a frame labelled
      0..n-1, are `bound`..n-1. */
  lemma LabelsFrom<N(!new)>(t: Table<N>, ps: seq<nat>, bound: nat)
    requires WellFormed(t)
    requires forall i :: 0 <= i < |ps| ==> ps[i] < |t.rows| && t.index[ps[i]] >= bound
    requires forall i, j :: 0 <= i < j < |ps| ==> ps[i] < ps[j]
    requires forall p :: 0 <= p < |t.rows| && t.index[p] >= bound ==> p in ps
    ensures t.index == Range(|t.rows|) && bound <= |t.rows| ==>
      && Select(t, ps).rows == t.rows[bound..]
      && |Select(t, ps).index| == |t.rows| - bound
      && forall i :: 0 <= i < |Select(t, ps).index| ==> Select(t, ps).index[i] == bound + i
  {
    if t.index == Range(|t.rows|) && bound <= |t.rows| {
      LabelsArePositions(t, ps, bound);
      Consecutive(ps, bound, |t.rows|);
      SelectFrom(t, ps, bound);
    }
  }

  lemma LabelsArePositions<N(!new)>(t: Table<N>, ps: seq<nat>, b: nat)
    requires WellFormed(t) && t.index == Range(|t.rows|)
    requires forall i :: 0 <= i < |ps| ==> ps[i] < |t.rows| && t.index[ps[i]] >= b
    requires forall p :: 0 <= p < |t.rows| && t.index[p] >= b ==> p in ps
    ensures forall i :: 0 <= i < |ps| ==> b <= ps[i] < |t.rows|
    ensures forall p :: b <= p < |t.rows| ==> p in ps
  {
    forall i | 0 <= i < |ps|
      ensures ps[i] >= b
    {
      assert t.index[ps[i]] == ps[i];
    }
    forall p | b <= p < |t.rows|
      ensures p in ps
    {
      assert t.index[p] == p;
    }
  }

  lemma SelectFrom<N(!new)>(t: Table<N>, ps: seq<nat>, b: nat)
    requires WellFormed(t) && b <= |t.rows| && |ps| == |t.rows| - b
    requires forall i :: 0 <= i < |ps| ==> ps[i] == b + i
    requires t.index == Range(|t.rows|)
    ensures var u := Select(t, ps);
      && u.rows == t.rows[b..]
      && |u.index| == |t.rows| - b && forall i :: 0 <= i < |u.index| ==> u.index[i] == b + i
  {
  }

  /** An increasing sequence of the numbers in b..n-1 that holds each of them
      is b, b+1, ..., n-1. */
  lemma Consecutive(ps: seq<nat>, b: nat, n: nat)
    requires b <= n
    requires forall i :: 0 <= i < |ps| ==> b <= ps[i] < n
    requires forall i, j :: 0 <= i < j < |ps| ==> ps[i] < ps[j]
    requires forall p :: b <= p < n ==> p in ps
    ensures |ps| == n - b && forall i :: 0 <= i < |ps| ==> ps[i] == b + i
  {
    forall i | 0 <= i < |ps|
      ensures ps[i] == b + i
    {
      ConsecutiveAt(ps, b, n, i);
    }
    if b < n {
      assert n - 1 in ps;
      var j :| 0 <= j < |ps| && ps[j] == n - 1;
      assert j == n - 1 - b;
    }
    if |ps| > 0 {
      assert ps[|ps| - 1] == b + |ps| - 1;
    }
  }

  lemma {:induction false} ConsecutiveAt(ps: seq<nat>, b: nat, n: nat, i: nat)
    requires forall i :: 0 <= i < |ps| ==> b <= ps[i] < n
    requires forall i, j :: 0 <= i < j < |ps| ==> ps[i] < ps[j]
    requires forall p :: b <= p < n ==> p in ps
    requires i < |ps|
    ensures ps[i] == b + i
    decreases i
  {
    BelowAt(ps, b, n, i);
    assert b + i in ps;
    var j :| 0 <= j < |ps| && ps[j] == b + i;
    if j < i {
      ConsecutiveAt(ps, b, n, j);
    }
  }

  lemma {:induction false} BelowAt(ps: seq<nat>, b: nat, n: nat, i: nat)
    requires forall i :: 0 <= i < |ps| ==> b <= ps[i] < n
    requires forall i, j :: 0 <= i < j < |ps| ==> ps[i] < ps[j]
    requires i < |ps|
    ensures ps[i] >= b + i
    decreases i
  {
    if i > 0 {
      BelowAt(ps, b, n, i - 1);
    }
  }

  /** Two well-formed tables with the same columns, labels and cells are equal. */
  lemma TableExtensionality<N(!new)>(t: Table<N>, u: Table<N>)
    requires WellFormed(t) && WellFormed(u)
    requires t.columns == u.columns && t.index == u.index
    requires forall p, c :: 0 <= p < |t.rows| && c in t.columns ==> Cell(t, p, c) == Cell(u, p, c)
    ensures t == u
  {
    forall p | 0 <= p < |t.rows|
      ensures t.rows[p] == u.rows[p]
    {
      forall k | 0 <= k < |t.columns|
        ensures t.rows[p][k] == u.rows[p][k]
      {
        PositionOfDistinct(t.columns, k);
        assert Cell(t, p, t.columns[k]) == Cell(u, p, t.columns[k]);
      }
    }
  }

  /** `df[cols]`: the named columns in the given order, every row and label. */
  function SelectColumns<N(==, !new)>(t: Table<N>, cols: seq<N>): (r: Result<Table<N>>)
    requires WellFormed(t)
    ensures r.Ok? <==> (forall c :: c in cols ==> c in t.columns) && Distinct(cols)
    ensures r.Ok? ==> WellFormed(r.value) && r.value.columns == cols && r.value.index == t.index
    ensures r.Ok? ==> forall p, c :: 0 <= p < |t.rows| && c in cols ==> Cell(r.value, p, c) == Cell(t, p, c)
  {
    var absent := FirstAbsent(cols, t.columns);
    if absent.Some? then Err(KeyError)
    else if !Distinct(cols) then Err(DuplicateColumn)
    else
      var u := Table(cols, t.index,
        seq(|t.rows|, p requires 0 <= p < |t.rows| =>
          seq(|cols|, k requires 0 <= k < |cols| => Cell(t, p, cols[k]))));
      assert forall p, c :: 0 <= p < |t.rows| && c in cols ==> Cell(u, p, c) == Cell(t, p, c) by {
        forall p, c | 0 <= p < |t.rows| && c in cols
          ensures Cell(u, p, c) == Cell(t, p, c)
        {
          var k := Position(cols, c);
        }
      }
      Ok(u)
  }

  /** `df.loc[label, c]`. */
  function Loc<N(==, !new)>(t: Table<N>, lbl: nat, c: N): (r: Result<Value>)
    requires WellFormed(t)
    ensures r.Ok? <==> lbl in t.index && c in t.columns
    ensures r.Ok? ==> r.value == Cell(t, LabelPos(t.index, lbl).value, c)
  {
    match LabelPos(t.index, lbl)
    case None => Err(LabelError(lbl))
    case Some(p) => if c in t.columns then Ok(Cell(t, p, c)) else Err(KeyError)
  }

  /** The table after `df.loc[label, c] = v` for a label the index has: a new
      column `c` is appended first, NaN in every row, when there is none. The
      cells it holds are stated by `SetLocCells`. */
  function SetLoc<N(==, !new)>(t: Table<N>, lbl: nat, c: N, v: Value): (u: Table<N>)
    requires WellFormed(t) && lbl in t.index
    ensures WellFormed(u) && u.index == t.index && |u.rows| == |t.rows|
    ensures u.columns == if c in t.columns then t.columns else t.columns + [c]
  {
    var w := if c in t.columns then t else AddColumn(t, c);
    var p := LabelPos(t.index, lbl).value;
    var k := Position(w.columns, c);
    Table(w.columns, w.index, w.rows[p := w.rows[p][k := v]])
  }

  /** `df.loc[label, c] = v` writes `v` in the labelled row of `c` and nothing
      else: every other cell keeps its value, and a new column is NaN in every
      other row. */
  lemma SetLocCells<N(!new)>(t: Table<N>, lbl: nat, c: N, v: Value)
    requires WellFormed(t) && lbl in t.index
    ensures var u := SetLoc(t, lbl, c, v); var at := LabelPos(t.index, lbl).value;
      && Cell(u, at, c) == v
      && (forall p, d :: 0 <= p < |t.rows| && d in t.columns && (p != at || d != c) ==> Cell(u, p, d) == Cell(t, p, d))
      && (c !in t.columns ==> forall p :: 0 <= p < |t.rows| && p != at ==> Cell(u, p, c) == Missing)
  {
    var u := SetLoc(t, lbl, c, v);
    var w := if c in t.columns then t else AddColumn(t, c);
    var p := LabelPos(t.index, lbl).value;
    forall q, d | 0 <= q < |t.rows| && d in w.columns && (q != p || d != c)
      ensures Cell(u, q, d) == Cell(w, q, d)
    {
      if q == p {
        PositionOfDistinct(w.columns, Position(w.columns, d));
      }
    }
  }

  /** One cell after `df.loc[label, c] = v` on an existing column: `v` in the
      labelled row of `c`, the old cell anywhere else. */
  lemma SetLocCell<N(!new)>(t: Table<N>, lbl: nat, c: N, v: Value, p: nat, d: N)
    requires WellFormed(t) && lbl in t.index && c in t.columns && p < |t.rows| && d in t.columns
    ensures Cell(SetLoc(t, lbl, c, v), p, d) == if d == c && t.index[p] == lbl then v else Cell(t, p, d)
  {
    var at := LabelPos(t.index, lbl).value;
    SetLocCells(t, lbl, c, v);
    if p != at {
      DistinctAt(t.index, p, at);
    }
  }

  /** Every row with one more cell, NaN, at its end. */
  function Widen(rows: seq<Row>): (r: seq<Row>)
    ensures |r| == |rows| && forall p :: 0 <= p < |rows| ==> r[p] == rows[p] + [Missing]
  {
    if |rows| == 0 then [] else Widen(rows[..|rows| - 1]) + [rows[|rows| - 1] + [Missing]]
  }

  /** A new last column, NaN in every row. */
  function AddColumn<N(==, !new)>(t: Table<N>, c: N): (u: Table<N>)
    requires WellFormed(t) && c !in t.columns
    ensures WellFormed(u) && u.columns == t.columns + [c] && u.index == t.index && |u.rows| == |t.rows|
    ensures forall p :: 0 <= p < |t.rows| ==> Cell(u, p, c) == Missing
    ensures forall p, d :: 0 <= p < |t.rows| && d in t.columns ==> Cell(u, p, d) == Cell(t, p, d)
  {
    DistinctAppend(t.columns, c);
    var u := Table(t.columns + [c], t.index, Widen(t.rows));
    assert forall p, d :: 0 <= p < |t.rows| && d in t.columns ==> Cell(u, p, d) == Cell(t, p, d) by {
      forall p, d | 0 <= p < |t.rows| && d in t.columns
        ensures Cell(u, p, d) == Cell(t, p, d)
      {
        PositionOfDistinct(u.columns, Position(t.columns, d));
      }
    }
    assert Position(u.columns, c) == |t.columns| by {
      PositionOfDistinct(u.columns, |t.columns|);
    }
    u
  }

  // ---------------------------------------------------------------------------
  // The object the scripts mutate.

  /** A DataFrame object; its methods are the in-place (`inplace=True`, `.loc`
      assignment) operations, each tied to the value-level operation above. */
  class DataFrame<N(==, !new)> {
    var columns: seq<N>
    var index: seq<nat>
    var rows: seq<Row>

    function Value(): Table<N>
      reads this
    {
      Table(columns, index, rows)
    }

    predicate Valid()
      reads this
    {
      WellFormed(Value())
    }

    constructor (t: Table<N>)
      requires WellFormed(t)
      ensures Valid() && Value() == t
    {
      columns, index, rows := t.columns, t.index, t.rows;
    }

    method Assign(t: Table<N>)
      requires WellFormed(t)
      modifies this
      ensures Valid() && Value() == t
    {
      columns, index, rows := t.columns, t.index, t.rows;
    }

    /** `df.set_index(c)` as a statement: the new frame is dropped, so `df`
        does not change; only the KeyError for a missing `c` remains. */
    method SetIndex(c: N) returns (r: Outcome)
      requires Valid()
      ensures r.Pass? <==> SetIndexDiscarded(Value(), c).Ok?
      ensures r.Fail? ==> SetIndexDiscarded(Value(), c) == Err(r.error)
    {
      var u := SetIndexDiscarded(Value(), c);
      if u.Err? { return Fail(u.error); }
      r := Pass;
    }

    /** `df.drop(c, axis=1, inplace=True)`. */
    method Drop(c: N) returns (r: Outcome)
      requires Valid()
      modifies this
      ensures Valid()
      ensures r.Pass? <==> DropColumn(old(Value()), c).Ok?
      ensures r.Pass? ==> Value() == DropColumn(old(Value()), c).value
      ensures r.Fail? ==> DropColumn(old(Value()), c) == Err(r.error) && Value() == old(Value())
    {
      var u := DropColumn(Value(), c);
      if u.Err? { return Fail(u.error); }
      Assign(u.value);
      r := Pass;
    }

    /** `df.drop(df[~keep(df.c)].index, inplace=True)`. */
    method DropRowsUnless(c: N, keep: Value -> bool) returns (r: Outcome)
      requires Valid()
      modifies this
      ensures Valid()
      ensures r.Pass? <==> FilterRows(old(Value()), c, keep).Ok?
      ensures r.Pass? ==> Value() == FilterRows(old(Value()), c, keep).value
      ensures r.Fail? ==> FilterRows(old(Value()), c, keep) == Err(r.error) && Value() == old(Value())
    {
      var u := FilterRows(Value(), c, keep);
      if u.Err? { return Fail(u.error); }
      Assign(u.value);
      r := Pass;
    }

    /** `df.rename(columns=m, inplace=True)`. */
    method Rename(m: map<N, N>) returns (r: Outcome)
      requires Valid()
      modifies this
      ensures Valid()
      ensures r.Pass? <==> RenameColumns(old(Value()), m).Ok?
      ensures r.Pass? ==> Value() == RenameColumns(old(Value()), m).value
      ensures r.Fail? ==> RenameColumns(old(Value()), m) == Err(r.error) && Value() == old(Value())
    {
      var u := RenameColumns(Value(), m);
      if u.Err? { return Fail(u.error); }
      Assign(u.value);
      r := Pass;
    }

    /** `df.drop(df[df.index < bound].index, inplace=True)`. */
    method DropLabelsBelowInPlace(bound: nat)
      requires Valid()
      modifies this
      ensures Valid() && Value() == DropLabelsBelow(old(Value()), bound)
    {
      Assign(DropLabelsBelow(Value(), bound));
    }

    /** `df.loc[label, c] = v` where the frame has the label. */
    method SetCell(lbl: nat, c: N, v: Value)
      requires Valid() && lbl in index
      modifies this
      ensures Valid() && Value() == SetLoc(old(Value()), lbl, c, v)
    {
      Assign(SetLoc(Value(), lbl, c, v));
    }
  }

  /** `df.reset_index(drop=drop, inplace=True)`; the column it may insert is
      named by text, so the frame's column names are strings. */
  method ResetIndexInPlace(df: DataFrame<string>, drop: bool) returns (r: Outcome)
    requires df.Valid()
    modifies df
    ensures df.Valid()
    ensures r.Pass? <==> ResetIndex(old(df.Value()), drop).Ok?
    ensures r.Pass? ==> df.Value() == ResetIndex(old(df.Value()), drop).value
    ensures r.Fail? ==> ResetIndex(old(df.Value()), drop) == Err(r.error) && df.Value() == old(df.Value())
  {
    var u := ResetIndex(df.Value(), drop);
    if u.Err? { return Fail(u.error); }
    df.Assign(u.value);
    r := Pass;
  }
}
