/** `delay_date`: every date of a column moves back one calendar day, row by
    row, addressing the rows by the labels 0..len(df)-1. */
module Delay {
  import opened Wrappers
  import opened Frames
  import opened Dates

  /** `strptime(v, '%Y-%m-%d') - timedelta(days=1)`, rendered back with
      `strftime`, on one cell: `strptime` raises TypeError on a cell that is
      not text and ValueError on text that is not a date; the subtraction
      raises OverflowError on 0001-01-01. */
  function DelayCell(v: Value): (r: Result<Value>)
    ensures r.Ok? <==> v.Str? && Parse(v.s).Some? && Parse(v.s) != Some(Date(MinYear, 1, 1))
    ensures r.Ok? ==> r.value.Str? && Parse(r.value.s).Some?
    ensures r.Ok? ==> Ordinal(Parse(r.value.s).value) == Ordinal(Parse(v.s).value) - 1
    ensures r.Err? ==> (r.error == TypeError <==> !v.Str?)
    ensures r.Err? ==> (r.error == ValueError <==> v.Str? && Parse(v.s).None?)
    ensures r.Err? ==> (r.error == OverflowError <==> v.Str? && Parse(v.s) == Some(Date(MinYear, 1, 1)))
  {
    if !v.Str? then Err(TypeError)
    else
      DelayTextMeaning(v.s);
      match DelayText(v.s)
      case Failed(Unparsable) => Err(ValueError)
      case Failed(OutOfRange) => Err(OverflowError)
      case Shifted(s) => Ok(Str(s))
  }

  /** What the loop body computes for label `L` with the per-cell step `f`:
      the read `df.loc[L, c]` raises first, then the step. */
  function StepAt<N(==, !new)>(t: Table<N>, c: N, L: nat, f: Value -> Result<Value>): Result<Value>
    requires WellFormed(t)
  {
    var v := Loc(t, L, c);
    if v.Err? then v else f(v.value)
  }

  /** The loop body runs without raising for the labels 0..i-1. */
  predicate StepsOk<N(==, !new)>(t: Table<N>, c: N, i: nat, f: Value -> Result<Value>)
    requires WellFormed(t)
  {
    forall L :: 0 <= L < i ==> StepAt(t, c, L, f).Ok?
  }

  /** What the loop leaves at row position `p` of column `d` once it has
      handled the labels 0..i-1: the step's value in a row labelled below `i`
      of column `c`, the old cell anywhere else. */
  function CellAfter<N(==, !new)>(t: Table<N>, c: N, i: nat, f: Value -> Result<Value>, p: nat, d: N): Value
    requires WellFormed(t) && StepsOk(t, c, i, f) && p < |t.rows| && d in t.columns
  {
    if d == c && t.index[p] < i then StepAt(t, c, t.index[p], f).value else Cell(t, p, d)
  }

  /** The frame once the loop has handled the labels 0..i-1, each with the
      value it computes from the frame before the loop. */
  function Rewritten<N(==, !new)>(t: Table<N>, c: N, i: nat, f: Value -> Result<Value>): (u: Table<N>)
    requires WellFormed(t) && StepsOk(t, c, i, f)
    ensures WellFormed(u) && u.columns == t.columns && u.index == t.index && |u.rows| == |t.rows|
  {
    Table(t.columns, t.index, seq(|t.rows|, p requires 0 <= p < |t.rows| =>
      seq(|t.columns|, k requires 0 <= k < |t.columns| => CellAfter(t, c, i, f, p, t.columns[k]))))
  }

  lemma RewrittenCell<N(!new)>(t: Table<N>, c: N, i: nat, f: Value -> Result<Value>, p: nat, d: N)
    requires WellFormed(t) && StepsOk(t, c, i, f) && p < |t.rows| && d in t.columns
    ensures Cell(Rewritten(t, c, i, f), p, d) == CellAfter(t, c, i, f, p, d)
  {
  }

  /** Before the loop nothing has changed. */
  lemma RewrittenNone<N(!new)>(t: Table<N>, c: N, f: Value -> Result<Value>)
    requires WellFormed(t)
    ensures Rewritten(t, c, 0, f) == t
  {
    forall p, d | 0 <= p < |t.rows| && d in t.columns
      ensures Cell(Rewritten(t, c, 0, f), p, d) == Cell(t, p, d)
    {
      RewrittenCell(t, c, 0, f, p, d);
    }
    TableExtensionality(Rewritten(t, c, 0, f), t);
  }

  /** The loop body for label `i` takes the frame for labels 0..i-1 to the
      frame for labels 0..i. */
  lemma RewriteStep<N(!new)>(t: Table<N>, c: N, i: nat, f: Value -> Result<Value>)
    requires WellFormed(t) && StepsOk(t, c, i + 1, f)
    ensures i in t.index && c in t.columns
    ensures SetLoc(Rewritten(t, c, i, f), i, c, StepAt(t, c, i, f).value) == Rewritten(t, c, i + 1, f)
  {
    assert StepAt(t, c, i, f).Ok?;
    assert Loc(t, i, c).Ok?;
    var prev := Rewritten(t, c, i, f);
    var v := StepAt(t, c, i, f).value;
    var u := SetLoc(prev, i, c, v);
    var w := Rewritten(t, c, i + 1, f);
    forall p, d | 0 <= p < |t.rows| && d in t.columns
      ensures Cell(u, p, d) == Cell(w, p, d)
    {
      SetLocCell(prev, i, c, v, p, d);
      RewrittenCell(t, c, i, f, p, d);
      RewrittenCell(t, c, i + 1, f, p, d);
    }
    TableExtensionality(u, w);
  }

  /** One more label whose step succeeds. */
  lemma StepsOkNext<N(!new)>(t: Table<N>, c: N, i: nat, f: Value -> Result<Value>)
    requires WellFormed(t) && StepsOk(t, c, i, f) && StepAt(t, c, i, f).Ok?
    ensures StepsOk(t, c, i + 1, f)
  {
  }

  /** Label `i` has not been written before the loop reaches it, so the loop
      body reads the frame before the loop. */
  lemma RewrittenUnread<N(!new)>(t: Table<N>, c: N, i: nat, f: Value -> Result<Value>)
    requires WellFormed(t) && StepsOk(t, c, i, f)
    ensures StepAt(Rewritten(t, c, i, f), c, i, f) == StepAt(t, c, i, f)
  {
    if i in t.index && c in t.columns {
      RewrittenCell(t, c, i, f, Position(t.index, i), c);
    }
  }

  /** `for i in range(0, len(df)): df.loc[i, c] = <the day before>`, in place;
      the first label whose step raises stops the loop with that exception. */
  method DelayDate<N(==, !new)>(df: DataFrame<N>, c: N) returns (r: Outcome)
    requires df.Valid()
    modifies df
    ensures df.Valid()
    ensures r.Pass? <==> StepsOk(old(df.Value()), c, |old(df.rows)|, DelayCell)
    ensures r.Pass? ==> df.Value() == Rewritten(old(df.Value()), c, |old(df.rows)|, DelayCell)
    ensures r.Fail? ==> exists L :: && 0 <= L < |old(df.rows)| && StepsOk(old(df.Value()), c, L, DelayCell)
                                    && StepAt(old(df.Value()), c, L, DelayCell) == Err(r.error)
  {
    ghost var t := df.Value();
    var n := |df.rows|;
    var i := 0;
    RewrittenNone(t, c, DelayCell);
    while i < n
      invariant i <= n == |t.rows|
      invariant StepsOk(t, c, i, DelayCell) && df.Valid() && df.Value() == Rewritten(t, c, i, DelayCell)
    {
      RewrittenUnread(t, c, i, DelayCell);
      var cell := Loc(df.Value(), i, c);
      if cell.Err? {
        return Fail(cell.error);
      }
      var shifted := DelayCell(cell.value);
      assert StepAt(t, c, i, DelayCell) == shifted;
      if shifted.Err? {
        return Fail(shifted.error);
      }
      StepsOkNext(t, c, i, DelayCell);
      RewriteStep(t, c, i, DelayCell);
      df.SetCell(i, c, shifted.value);
      i := i + 1;
    }
    r := Pass;
  }

  // ---------------------------------------------------------------------------
  // Which frames the loop can address: labels 0..n-1 are all there exactly when
  // no label is n or more.

  /** The element at `j` survives removing position `k`. */
  lemma InWithout<T>(s: seq<T>, k: nat, j: nat)
    requires k < |s| && j < |s| && j != k
    ensures s[j] in Without(s, k)
  {
    assert Without(s, k)[if j < k then j else j - 1] == s[j];
  }

  /** A distinct sequence whose elements all occur in `b` is no longer than `b`. */
  lemma {:induction false} DistinctWithin<T>(a: seq<T>, b: seq<T>)
    requires Distinct(a) && forall x :: x in a ==> x in b
    ensures |a| <= |b|
    decreases |a|
  {
    if |a| > 0 {
      var x := a[|a| - 1];
      var k := Position(b, x);
      var a', b' := a[..|a| - 1], Without(b, k);
      DistinctPrefix(a, |a| - 1);
      forall y | y in a'
        ensures y in b'
      {
        var i :| 0 <= i < |a'| && a'[i] == y;
        DistinctAt(a, i, |a| - 1);
        assert a[i] in a;
        InWithout(b, k, Position(b, y));
      }
      DistinctWithin(a', b');
    }
  }

  /** n distinct labels include every label below n exactly when none of them
      is n or more (a pigeonhole argument, both ways). */
  lemma LabelsCover(index: seq<nat>)
    requires Distinct(index)
    ensures (forall L :: 0 <= L < |index| ==> L in index) <==> (forall p :: 0 <= p < |index| ==> index[p] < |index|)
  {
    var n := |index|;
    if (forall L :: 0 <= L < n ==> L in index) && exists p :: 0 <= p < n && index[p] >= n {
      var p :| 0 <= p < n && index[p] >= n;
      forall y | y in Range(n)
        ensures y in Without(index, p)
      {
        assert y < n;
        InWithout(index, p, Position(index, y));
      }
      DistinctWithin(Range(n), Without(index, p));
    }
    if (forall p :: 0 <= p < n ==> index[p] < n) && exists L :: 0 <= L < n && L !in index {
      var L :| 0 <= L < n && L !in index;
      forall y | y in index
        ensures y in Without(Range(n), L)
      {
        InWithout(Range(n), L, y);
      }
      DistinctWithin(index, Without(Range(n), L));
    }
  }

  /** On a non-empty frame the loop runs to the end exactly when the column is
      there, no label is `len(df)` or more, and the step accepts every cell. */
  lemma StepsOkMeaning<N(!new)>(t: Table<N>, c: N, f: Value -> Result<Value>)
    requires WellFormed(t) && |t.rows| > 0
    ensures StepsOk(t, c, |t.rows|, f) <==>
      && c in t.columns
      && (forall p :: 0 <= p < |t.rows| ==> t.index[p] < |t.rows|)
      && (forall p :: 0 <= p < |t.rows| ==> f(Cell(t, p, c)).Ok?)
  {
    var n := |t.rows|;
    LabelsCover(t.index);
    if StepsOk(t, c, n, f) {
      assert StepAt(t, c, 0, f).Ok?;
      forall L | 0 <= L < n
        ensures L in t.index
      {
        assert StepAt(t, c, L, f).Ok?;
      }
      forall p | 0 <= p < n
        ensures f(Cell(t, p, c)).Ok?
      {
        assert StepAt(t, c, t.index[p], f).Ok?;
        PositionOfDistinct(t.index, p);
      }
    }
    if && c in t.columns
       && (forall p :: 0 <= p < n ==> t.index[p] < n)
       && (forall p :: 0 <= p < n ==> f(Cell(t, p, c)).Ok?) {
      forall L | 0 <= L < n
        ensures StepAt(t, c, L, f).Ok?
      {
        assert L in t.index;
        PositionOfDistinct(t.index, Position(t.index, L));
      }
    }
  }

  /** A label of `len(df)` or more means some label below `len(df)` is missing:
      the loop raises on it, whatever the cells hold. */
  lemma LabelGapFails<N(!new)>(t: Table<N>, c: N, f: Value -> Result<Value>, p: nat)
    requires WellFormed(t) && p < |t.rows| && t.index[p] >= |t.rows|
    ensures exists L :: 0 <= L < |t.rows| && StepAt(t, c, L, f) == Err(LabelError(L))
    ensures !StepsOk(t, c, |t.rows|, f)
  {
    LabelsCover(t.index);
    var L :| 0 <= L < |t.rows| && L !in t.index;
    assert StepAt(t, c, L, f) == Err(LabelError(L));
  }

  /** When every cell of `c` passes the step, the first label the loop
      raises on is the smallest missing one, and it raises KeyError there. */
  lemma FirstLabelGap<N(!new)>(t: Table<N>, c: N, f: Value -> Result<Value>, p: nat)
    requires WellFormed(t) && p < |t.rows| && t.index[p] >= |t.rows| && c in t.columns
    requires forall q :: 0 <= q < |t.rows| ==> f(Cell(t, q, c)).Ok?
    ensures exists L :: 0 <= L < |t.rows| && StepsOk(t, c, L, f) && StepAt(t, c, L, f) == Err(LabelError(L))
  {
    LabelsCover(t.index);
    var gap :| 0 <= gap < |t.rows| && gap !in t.index;
    var L := 0;
    while L in t.index
      invariant L <= gap && StepsOk(t, c, L, f)
      decreases gap - L
    {
      assert L != gap;
      var q := LabelPos(t.index, L).value;
      assert StepAt(t, c, L, f) == f(Cell(t, q, c));
      L := L + 1;
    }
    assert StepAt(t, c, L, f) == Err(LabelError(L));
  }

  /** After the whole loop every row holds, in column `c`, the step's value
      for its old cell; no other cell changes, and neither do the labels or
      the columns. */
  lemma StepsResult<N(!new)>(t: Table<N>, c: N, f: Value -> Result<Value>)
    requires WellFormed(t) && |t.rows| > 0 && StepsOk(t, c, |t.rows|, f)
    ensures var u := Rewritten(t, c, |t.rows|, f);
      && c in t.columns
      && (forall p :: 0 <= p < |t.rows| ==> f(Cell(t, p, c)) == Ok(Cell(u, p, c)))
      && (forall p, d :: 0 <= p < |t.rows| && d in t.columns && d != c ==> Cell(u, p, d) == Cell(t, p, d))
  {
    StepsOkMeaning(t, c, f);
    forall p, d | 0 <= p < |t.rows| && d in t.columns
      ensures Cell(Rewritten(t, c, |t.rows|, f), p, d) ==
        if d == c then StepAt(t, c, t.index[p], f).value else Cell(t, p, d)
    {
      RewrittenCell(t, c, |t.rows|, f, p, d);
    }
    forall p | 0 <= p < |t.rows|
      ensures StepAt(t, c, t.index[p], f) == f(Cell(t, p, c))
    {
      PositionOfDistinct(t.index, p);
    }
  }

  /** After the whole `delay_date` loop every row holds, in column `c`, the
      text of the calendar day before its old date; no other cell changes,
      and neither do the labels or the columns. */
  lemma DelayDateResult<N(!new)>(t: Table<N>, c: N)
    requires WellFormed(t) && |t.rows| > 0 && StepsOk(t, c, |t.rows|, DelayCell)
    ensures var u := Rewritten(t, c, |t.rows|, DelayCell);
      && c in t.columns && u.columns == t.columns && u.index == t.index
      && (forall p :: 0 <= p < |t.rows| ==> DelayCell(Cell(t, p, c)) == Ok(Cell(u, p, c)))
      && (forall p, d :: 0 <= p < |t.rows| && d in t.columns && d != c ==> Cell(u, p, d) == Cell(t, p, d))
  {
    StepsResult(t, c, DelayCell);
  }
}
