/** `left.merge(right, how='left', on=keys)`: every left row, in left order, is
    joined with each right row whose key cells match its own (in right order), or
    with NaN when none does; the key columns appear once, and a non-key name on
    both sides becomes `name_x` (left) and `name_y` (right). */
module Merge {
  import opened Wrappers
  import opened Frames
  import opened Ordering

  function LeftName(c: string, keys: seq<string>, rest: seq<string>): string {
    if c !in keys && c in rest then c + "_x" else c
  }

  function RightName(c: string, left: seq<string>): string {
    if c in left then c + "_y" else c
  }

  /** The merged table's columns: the left ones, then the right non-key ones. */
  function MergedColumns(left: seq<string>, keys: seq<string>, rest: seq<string>): (cols: seq<string>)
    ensures |cols| == |left| + |rest|
    ensures forall k :: 0 <= k < |left| ==> cols[k] == LeftName(left[k], keys, rest)
    ensures forall k :: 0 <= k < |rest| ==> cols[|left| + k] == RightName(rest[k], left)
  {
    seq(|left|, k requires 0 <= k < |left| => LeftName(left[k], keys, rest))
      + seq(|rest|, k requires 0 <= k < |rest| => RightName(rest[k], left))
  }

  predicate Mergeable(left: Table<string>, right: Table<string>, keys: seq<string>) {
    Sortable(left, keys) && Sortable(right, keys)
  }

  /** The right row positions below `n` whose keys match `key`, in order. */
  function Matches(right: Table<string>, keys: seq<string>, key: seq<Value>, n: nat): (ms: seq<nat>)
    requires Sortable(right, keys) && n <= |right.rows|
    ensures forall i :: 0 <= i < |ms| ==> ms[i] < n && KeySame(key, Key(right, ms[i], keys))
    ensures forall i, j :: 0 <= i < j < |ms| ==> ms[i] < ms[j]
    ensures forall q :: 0 <= q < n && KeySame(key, Key(right, q, keys)) ==> q in ms
  {
    if n == 0 then []
    else Matches(right, keys, key, n - 1) + if KeySame(key, Key(right, n - 1, keys)) then [n - 1] else []
  }

  /** The merged rows contributed by left row `p`. */
  function RowsFor(left: Table<string>, right: Table<string>, keys: seq<string>, rest: seq<string>, p: nat): (rs: seq<Row>)
    requires Mergeable(left, right, keys) && p < |left.rows| && forall c :: c in rest ==> c in right.columns
    ensures |rs| >= 1
    ensures forall k :: 0 <= k < |rs| ==> |rs[k]| == |left.columns| + |rest|
  {
    var ms := Matches(right, keys, Key(left, p, keys), |right.rows|);
    if |ms| == 0 then [left.rows[p] + seq(|rest|, _ => Missing)]
    else seq(|ms|, k requires 0 <= k < |ms| => left.rows[p] + Key(right, ms[k], rest))
  }

  /** The merged rows of left rows 0..n-1, one group per left row, in left order. */
  function MergeRows(left: Table<string>, right: Table<string>, keys: seq<string>, rest: seq<string>, n: nat): (rs: seq<Row>)
    requires Mergeable(left, right, keys) && n <= |left.rows| && forall c :: c in rest ==> c in right.columns
    ensures |rs| >= n
    ensures forall k :: 0 <= k < |rs| ==> |rs[k]| == |left.columns| + |rest|
  {
    if n == 0 then []
    else MergeRows(left, right, keys, rest, n - 1) + RowsFor(left, right, keys, rest, n - 1)
  }

  /** `left.merge(right, how='left', on=keys)`: KeyError when a key column is
      missing on either side. */
  function LeftMerge(left: Table<string>, right: Table<string>, keys: seq<string>): (r: Result<Table<string>>)
    requires WellFormed(left) && WellFormed(right)
    ensures r.Ok? ==> Mergeable(left, right, keys)
    ensures r.Ok? <==> && (forall c :: c in keys ==> c in left.columns && c in right.columns)
                       && Distinct(MergedColumns(left.columns, keys, Except(right.columns, keys)))
    ensures r.Ok? ==> WellFormed(r.value) && |r.value.rows| >= |left.rows|
    ensures r.Ok? ==> r.value.columns == MergedColumns(left.columns, keys, Except(right.columns, keys))
    ensures r.Ok? ==> r.value.index == Range(|r.value.rows|)
  {
    var absentLeft := FirstAbsent(keys, left.columns);
    var absentRight := FirstAbsent(keys, right.columns);
    if absentLeft.Some? then Err(KeyError)
    else if absentRight.Some? then Err(KeyError)
    else
      var rest := Except(right.columns, keys);
      var cols := MergedColumns(left.columns, keys, rest);
      if !Distinct(cols) then Err(DuplicateColumn)
      else
        var rows := MergeRows(left, right, keys, rest, |left.rows|);
        Ok(Table(cols, Range(|rows|), rows))
  }

  /** No two right rows have matching keys. */
  predicate UniqueKeys(right: Table<string>, keys: seq<string>)
    requires Sortable(right, keys)
  {
    forall q1, q2 :: 0 <= q1 < q2 < |right.rows| ==> !KeySame(Key(right, q1, keys), Key(right, q2, keys))
  }

  lemma KeySameTransitive(a: seq<Value>, b: seq<Value>, c: seq<Value>)
    requires KeySame(a, b) && KeySame(a, c)
    ensures KeySame(b, c)
  {
    forall k | 0 <= k < |b|
      ensures Same(b[k], c[k])
    {
      SameIsEquivalence(b[k], a[k], c[k]);
      SameIsEquivalence(a[k], b[k], c[k]);
    }
  }

  /** With unique right keys a left row matches at most one right row. */
  lemma AtMostOneMatch(right: Table<string>, keys: seq<string>, key: seq<Value>)
    requires Sortable(right, keys) && UniqueKeys(right, keys)
    ensures |Matches(right, keys, key, |right.rows|)| <= 1
  {
    var ms := Matches(right, keys, key, |right.rows|);
    if |ms| >= 2 {
      KeySameTransitive(key, Key(right, ms[0], keys), Key(right, ms[1], keys));
    }
  }

  /** The right row that left row `p` matches, if any. */
  function MatchOf(left: Table<string>, right: Table<string>, keys: seq<string>, p: nat): (m: Option<nat>)
    requires Mergeable(left, right, keys) && p < |left.rows|
    ensures m.Some? ==> m.value < |right.rows| && KeySame(Key(left, p, keys), Key(right, m.value, keys))
    ensures m.None? ==> forall q :: 0 <= q < |right.rows| ==> !KeySame(Key(left, p, keys), Key(right, q, keys))
  {
    var ms := Matches(right, keys, Key(left, p, keys), |right.rows|);
    if |ms| == 0 then None else Some(ms[0])
  }

  /** The right-hand cells of the row merged from left row `p` when it matches
      at most one right row. */
  function RightPart(left: Table<string>, right: Table<string>, keys: seq<string>, rest: seq<string>, p: nat): (cells: seq<Value>)
    requires Mergeable(left, right, keys) && p < |left.rows| && forall c :: c in rest ==> c in right.columns
    ensures |cells| == |rest|
  {
    match MatchOf(left, right, keys, p)
    case Some(q) => Key(right, q, rest)
    case None => seq(|rest|, _ => Missing)
  }

  /** The row merged from left row `p` when it matches at most one right row. */
  function MergedRow(left: Table<string>, right: Table<string>, keys: seq<string>, rest: seq<string>, p: nat): Row
    requires Mergeable(left, right, keys) && p < |left.rows| && forall c :: c in rest ==> c in right.columns
  {
    left.rows[p] + RightPart(left, right, keys, rest, p)
  }

  lemma RowsForUnique(left: Table<string>, right: Table<string>, keys: seq<string>, rest: seq<string>, p: nat)
    requires Mergeable(left, right, keys) && p < |left.rows| && forall c :: c in rest ==> c in right.columns
    requires UniqueKeys(right, keys)
    ensures RowsFor(left, right, keys, rest, p) == [MergedRow(left, right, keys, rest, p)]
  {
    AtMostOneMatch(right, keys, Key(left, p, keys));
  }

  lemma {:induction false} MergeRowsUnique(left: Table<string>, right: Table<string>, keys: seq<string>, rest: seq<string>, n: nat)
    requires Mergeable(left, right, keys) && n <= |left.rows| && forall c :: c in rest ==> c in right.columns
    requires UniqueKeys(right, keys)
    ensures var rs := MergeRows(left, right, keys, rest, n);
      |rs| == n && forall p :: 0 <= p < n ==> rs[p] == MergedRow(left, right, keys, rest, p)
  {
    if n > 0 {
      MergeRowsUnique(left, right, keys, rest, n - 1);
      RowsForUnique(left, right, keys, rest, n - 1);
      var prev := MergeRows(left, right, keys, rest, n - 1);
      var rs := MergeRows(left, right, keys, rest, n);
      assert rs == prev + [MergedRow(left, right, keys, rest, n - 1)];
      forall p | 0 <= p < n
        ensures rs[p] == MergedRow(left, right, keys, rest, p)
      {
        if p < n - 1 { assert rs[p] == prev[p]; }
      }
    }
  }

  /** What a right non-key column holds in the row merged from left row `p`. */
  function RightCell(left: Table<string>, right: Table<string>, keys: seq<string>, p: nat, c: string): Value
    requires Mergeable(left, right, keys) && p < |left.rows| && c in right.columns
  {
    match MatchOf(left, right, keys, p)
    case Some(q) => Cell(right, q, c)
    case None => Missing
  }

  /** The merged table, once the checks have passed. */
  lemma LeftMergeIs(left: Table<string>, right: Table<string>, keys: seq<string>)
    requires WellFormed(left) && WellFormed(right) && LeftMerge(left, right, keys).Ok?
    ensures var rest := Except(right.columns, keys);
      && Mergeable(left, right, keys) && (forall c :: c in rest ==> c in right.columns)
      && LeftMerge(left, right, keys).value.rows == MergeRows(left, right, keys, rest, |left.rows|)
  {
  }

  lemma MergedLeftCell(left: Table<string>, right: Table<string>, keys: seq<string>, rest: seq<string>, cols: seq<string>, rows: seq<Row>, p: nat, c: string)
    requires Mergeable(left, right, keys) && WellFormed(left) && rest == Except(right.columns, keys)
    requires cols == MergedColumns(left.columns, keys, rest) && Distinct(cols)
    requires rows == MergeRows(left, right, keys, rest, |left.rows|) && UniqueKeys(right, keys)
    requires p < |left.rows| && c in left.columns
    ensures |rows| == |left.rows| && LeftName(c, keys, rest) in cols
    ensures rows[p][Position(cols, LeftName(c, keys, rest))] == Cell(left, p, c)
  {
    MergeRowsUnique(left, right, keys, rest, |left.rows|);
    var k := Position(left.columns, c);
    assert cols[k] == LeftName(c, keys, rest);
    PositionOfDistinct(cols, k);
    assert rows[p] == left.rows[p] + RightPart(left, right, keys, rest, p);
  }

  lemma MergedRightCell(left: Table<string>, right: Table<string>, keys: seq<string>, rest: seq<string>, cols: seq<string>, rows: seq<Row>, p: nat, c: string)
    requires Mergeable(left, right, keys) && WellFormed(left) && rest == Except(right.columns, keys)
    requires cols == MergedColumns(left.columns, keys, rest) && Distinct(cols)
    requires rows == MergeRows(left, right, keys, rest, |left.rows|) && UniqueKeys(right, keys)
    requires p < |left.rows| && c in rest
    ensures |rows| == |left.rows| && RightName(c, left.columns) in cols
    ensures rows[p][Position(cols, RightName(c, left.columns))] == RightCell(left, right, keys, p, c)
  {
    MergeRowsUnique(left, right, keys, rest, |left.rows|);
    var k := Position(rest, c);
    assert cols[|left.columns| + k] == RightName(c, left.columns);
    PositionOfDistinct(cols, |left.columns| + k);
    assert rows[p] == left.rows[p] + RightPart(left, right, keys, rest, p);
    assert rows[p][|left.columns| + k] == RightPart(left, right, keys, rest, p)[k];
  }

  /** With unique right keys the left merge keeps exactly the left rows, in left
      order: each left cell stays under its (possibly suffixed) name, and each
      right non-key column holds the matching right row's cell, or NaN when no
      right row matches. */
  lemma LeftMergeUnique(left: Table<string>, right: Table<string>, keys: seq<string>)
    requires WellFormed(left) && WellFormed(right) && LeftMerge(left, right, keys).Ok?
    requires UniqueKeys(right, keys)
    ensures var u := LeftMerge(left, right, keys).value; var rest := Except(right.columns, keys);
      && |u.rows| == |left.rows| && u.index == Range(|left.rows|)
      && (forall p, c :: 0 <= p < |left.rows| && c in left.columns ==>
            LeftName(c, keys, rest) in u.columns && Cell(u, p, LeftName(c, keys, rest)) == Cell(left, p, c))
      && (forall p, c :: 0 <= p < |left.rows| && c in rest ==>
            RightName(c, left.columns) in u.columns
            && Cell(u, p, RightName(c, left.columns)) == RightCell(left, right, keys, p, c))
  {
    var u := LeftMerge(left, right, keys).value;
    var rest := Except(right.columns, keys);
    LeftMergeIs(left, right, keys);
    MergeRowsUnique(left, right, keys, rest, |left.rows|);
    forall p, c | 0 <= p < |left.rows| && c in left.columns
      ensures LeftName(c, keys, rest) in u.columns && Cell(u, p, LeftName(c, keys, rest)) == Cell(left, p, c)
    {
      MergedLeftCell(left, right, keys, rest, u.columns, u.rows, p, c);
    }
    forall p, c | 0 <= p < |left.rows| && c in rest
      ensures RightName(c, left.columns) in u.columns
      ensures Cell(u, p, RightName(c, left.columns)) == RightCell(left, right, keys, p, c)
    {
      MergedRightCell(left, right, keys, rest, u.columns, u.rows, p, c);
    }
  }
}
