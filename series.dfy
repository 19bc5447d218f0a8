/** The per-row loops over a time series held in a DataFrame<N>: for every label
    `i` in 1..len(df)-1, a target cell `df.loc[i, target]` is computed from the
    source cells at labels `i` and `i-1`. Two kinds of step occur: the first
    difference of a cumulative column (daily counts from running totals) and the
    guarded percentage variation `100*(v[i]-v[i-1])/v[i-1]`. */
module Series {
  import opened Wrappers
  import opened Frames

  /** One assignment in the loop body: which column it reads and which it writes. */
  datatype Update<N> =
    | Delta(cumulative: N, daily: N)
    | Variation(base: N, rate: N)
  {
    function Source(): N {
      if Delta? then cumulative else base
    }

    function Target(): N {
      if Delta? then daily else rate
    }
  }

  function Targets<N(==, !new)>(ups: seq<Update<N>>): (ts: seq<N>)
    ensures |ts| == |ups| && forall k :: 0 <= k < |ups| ==> ts[k] == ups[k].Target()
  {
    seq(|ups|, k requires 0 <= k < |ups| => ups[k].Target())
  }

  /** Update<N> `j` does not write the column update `k` reads. */
  predicate Unwritten<N(==, !new)>(ups: seq<Update<N>>, k: int, j: int) {
    0 <= k < |ups| && 0 <= j < |ups| && ups[k].Source() != ups[j].Target()
  }

  /** The loop bodies write distinct columns and never a column any of them reads. */
  predicate Independent<N(==, !new)>(ups: seq<Update<N>>) {
    && Distinct(Targets(ups))
    && forall k, j {:trigger Unwritten(ups, k, j)} :: 0 <= k < |ups| && 0 <= j < |ups| ==> Unwritten(ups, k, j)
  }

  /** `a - b` on two cells: text raises TypeError, NaN propagates, two
      integers stay an integer. */
  function Sub(a: Value, b: Value): (r: Result<Value>)
    ensures r.Err? <==> a.Str? || b.Str?
    ensures r.Err? ==> r.error == TypeError
    ensures r.Ok? ==> (r.value.Missing? <==> a.Missing? || b.Missing?)
    ensures r.Ok? && IsNumber(a) && IsNumber(b) ==> IsNumber(r.value) && AsReal(r.value) == AsReal(a) - AsReal(b)
    ensures r.Ok? && a.Int? && b.Int? ==> r.value.Int?
  {
    if a.Str? || b.Str? then Err(TypeError)
    else if a.Missing? || b.Missing? then Ok(Missing)
    else if a.Int? && b.Int? then Ok(Int(a.i - b.i))
    else Ok(Real(AsReal(a) - AsReal(b)))
  }

  /** `100 * ((cur - prev) / prev)` for a positive `prev`; undoing the rate
      gives `cur` back, so nothing is lost but the row before. */
  function Rate(prev: Value, cur: Value): (r: Result<Value>)
    requires IsNumber(prev) && AsReal(prev) > 0.0
    ensures r.Err? <==> cur.Str?
    ensures r.Err? ==> r.error == TypeError
    ensures r.Ok? ==> (r.value.Missing? <==> cur.Missing?)
    ensures r.Ok? && IsNumber(cur) ==> r.value.Real? && AsReal(cur) == AsReal(prev) + AsReal(prev) * r.value.r / 100.0
    ensures r.Ok? && IsNumber(cur) ==> (r.value.r > 0.0 <==> AsReal(cur) > AsReal(prev))
  {
    if cur.Str? then Err(TypeError)
    else if cur.Missing? then Ok(Missing)
    else
      var p, c := AsReal(prev), AsReal(cur);
      var rate := 100.0 * ((c - p) / p);
      assert p * ((c - p) / p) == c - p;
      assert p * rate / 100.0 == c - p;
      Ok(Real(rate))
  }

  /** The value the loop body assigns to `df.loc[L, target]`, read from `t`:
      the cells are read in the order the statement evaluates them, so the
      first failing read decides the exception. */
  function StepValue<N(==, !new)>(t: Table<N>, up: Update<N>, L: nat): (r: Result<Value>)
    requires WellFormed(t) && L >= 1
    ensures r.Ok? ==> L in t.index && L - 1 in t.index && up.Source() in t.columns
  {
    match up
    case Delta(cum, _) =>
      var a := Loc(t, L, cum);
      if a.Err? then Err(a.error)
      else
        var b := Loc(t, L - 1, cum);
        if b.Err? then Err(b.error) else Sub(a.value, b.value)
    case Variation(base, _) =>
      var prev := Loc(t, L - 1, base);
      if prev.Err? then Err(prev.error)
      else if prev.value.Str? then Err(TypeError)
      else if !(IsNumber(prev.value) && AsReal(prev.value) > 0.0) then
        if L in t.index then Ok(Missing) else Err(LabelError(L))
      else
        var cur := Loc(t, L, base);
        if cur.Err? then Err(cur.error) else Rate(prev.value, cur.value)
  }

  /** The step for label `L` and update `k` has run once the loop has finished
      the labels before `i` and the first `kk` updates of label `i`. */
  predicate Done(i: nat, kk: nat, L: nat, k: nat) {
    1 <= L && (L < i || (L == i && k < kk))
  }

  /** A cell as it was before the loop: NaN in a column the loop creates. */
  function Original<N(==, !new)>(t: Table<N>, p: nat, c: N): Value
    requires WellFormed(t) && p < |t.rows|
  {
    if c in t.columns then Cell(t, p, c) else Missing
  }

  /** How many targets the loop has created by (i, kk): all of them once label
      1 is finished. */
  function Added(i: nat, kk: nat, m: nat): nat {
    if i >= 2 then m else kk
  }

  /** Every step the loop runs before reaching (i, kk) succeeds. */
  ghost predicate DoneOk<N(!new)>(t: Table<N>, ups: seq<Update<N>>, i: nat, kk: nat)
    requires WellFormed(t)
  {
    forall L, k :: 0 <= k < |ups| && Done(i, kk, L, k) ==> StepValue(t, ups[k], L).Ok?
  }

  /** The cell the loop has left at row position `p` of update `k`'s target
      by (i, kk). */
  function Want<N(==, !new)>(t: Table<N>, ups: seq<Update<N>>, i: nat, kk: nat, p: nat, k: nat): Value
    requires WellFormed(t) && DoneOk(t, ups, i, kk) && p < |t.rows| && k < |ups|
  {
    if Done(i, kk, t.index[p], k) then StepValue(t, ups[k], t.index[p]).value else Original(t, p, ups[k].Target())
  }

  /** The columns the loop has appended by (i, kk): the targets assigned so far
      that the frame before the loop lacked, in order of first assignment. */
  function NewColumns<N(==, !new)>(t: Table<N>, ups: seq<Update<N>>, i: nat, kk: nat): seq<N>
    requires kk <= |ups|
  {
    Except(Targets(ups)[..Added(i, kk, |ups|)], t.columns)
  }

  /** The frame once the loop has finished the labels before `i` and the first
      `kk` updates of label `i`: the assignments run so far, in order, each
      with the value it computes from the frame before the loop (the
      `ReadsOriginal` lemma shows that is the value the loop computes). A
      target column is appended, after the columns already there, at its
      first assignment. */
  function Steps<N(==, !new)>(t: Table<N>, ups: seq<Update<N>>, i: nat, kk: nat): (u: Table<N>)
    requires WellFormed(t) && Independent(ups)
    requires 1 <= i && kk <= |ups| && DoneOk(t, ups, i, kk)
    ensures WellFormed(u) && u.index == t.index && |u.rows| == |t.rows|
    ensures u.columns == t.columns + NewColumns(t, ups, i, kk)
    decreases i, kk + 1
  {
    if kk == 0 then Start(t, ups, i)
    else
      assert StepValue(t, ups[kk - 1], i).Ok?;
      var prev := Steps(t, ups, i, kk - 1);
      StepsExtendColumns(t, ups, i, kk);
      SetLoc(prev, i, ups[kk - 1].Target(), StepValue(t, ups[kk - 1], i).value)
  }

  /** The frame when the loop is about to start label `i`: the frame before
      the loop, or the one label `i - 1` left. */
  function Start<N(==, !new)>(t: Table<N>, ups: seq<Update<N>>, i: nat): (u: Table<N>)
    requires WellFormed(t) && Independent(ups)
    requires 1 <= i && DoneOk(t, ups, i, 0)
    ensures WellFormed(u) && u.index == t.index && |u.rows| == |t.rows|
    ensures u.columns == t.columns + NewColumns(t, ups, i, 0)
    decreases i, 0
  {
    if i == 1 then
      assert t.columns + NewColumns(t, ups, i, 0) == t.columns;
      t
    else Steps(t, ups, i - 1, |ups|)
  }

  /** Each target cell of a finished step holds its step value, every other
      cell is as it was. */
  ghost predicate CellsAt<N(!new)>(t: Table<N>, ups: seq<Update<N>>, i: nat, kk: nat, u: Table<N>)
    requires WellFormed(t) && DoneOk(t, ups, i, kk) && WellFormed(u) && |u.rows| == |t.rows|
  {
    && (forall p, d :: 0 <= p < |t.rows| && d in t.columns && d !in Targets(ups) && d in u.columns ==> Cell(u, p, d) == Cell(t, p, d))
    && (forall p, k :: 0 <= p < |t.rows| && 0 <= k < |ups| && ups[k].Target() in u.columns ==>
          Cell(u, p, ups[k].Target()) == Want(t, ups, i, kk, p, k))
  }

  /** The cells of `Steps`: each target cell of a finished step holds its step
      value, every other cell is as it was. */
  lemma {:induction false} StepsCells<N(!new)>(t: Table<N>, ups: seq<Update<N>>, i: nat, kk: nat)
    requires WellFormed(t) && Independent(ups)
    requires 1 <= i && kk <= |ups| && DoneOk(t, ups, i, kk)
    ensures CellsAt(t, ups, i, kk, Steps(t, ups, i, kk))
    decreases i, kk, 1
  {
    if kk == 0 {
      StepsCellsAtLabelStart(t, ups, i);
    } else {
      StepsCellsAfterAssignment(t, ups, i, kk);
    }
  }

  /** `StepsCells` at the start of label `i`. */
  lemma {:induction false} StepsCellsAtLabelStart<N(!new)>(t: Table<N>, ups: seq<Update<N>>, i: nat)
    requires WellFormed(t) && Independent(ups)
    requires 1 <= i && DoneOk(t, ups, i, 0)
    ensures CellsAt(t, ups, i, 0, Steps(t, ups, i, 0))
    decreases i, 0, 0
  {
    if i > 1 {
      WantNext(t, ups, i);
      StepsCells(t, ups, i - 1, |ups|);
    }
  }

  /** `StepsCells` after the assignment for label `i` and update `kk - 1`. */
  lemma {:induction false} StepsCellsAfterAssignment<N(!new)>(t: Table<N>, ups: seq<Update<N>>, i: nat, kk: nat)
    requires WellFormed(t) && Independent(ups)
    requires 1 <= i && 1 <= kk <= |ups| && DoneOk(t, ups, i, kk)
    ensures CellsAt(t, ups, i, kk, Steps(t, ups, i, kk))
    decreases i, kk, 0
  {
    DoneOkBefore(t, ups, i, kk);
    StepsCells(t, ups, i, kk - 1);
    AssignmentKeepsOthers(t, ups, i, kk);
    AssignmentTargets(t, ups, i, kk);
  }

  /** Every step that has run by (i, kk-1) has also run by (i, kk). */
  lemma DoneOkBefore<N(!new)>(t: Table<N>, ups: seq<Update<N>>, i: nat, kk: nat)
    requires WellFormed(t) && 1 <= kk && DoneOk(t, ups, i, kk)
    ensures DoneOk(t, ups, i, kk - 1)
  {
  }

  /** The assignment for label `i` and update `kk - 1` leaves the columns no
      update writes as they were before the loop. */
  lemma AssignmentKeepsOthers<N(!new)>(t: Table<N>, ups: seq<Update<N>>, i: nat, kk: nat)
    requires WellFormed(t) && Independent(ups)
    requires 1 <= i && 1 <= kk <= |ups| && DoneOk(t, ups, i, kk) && DoneOk(t, ups, i, kk - 1)
    requires CellsAt(t, ups, i, kk - 1, Steps(t, ups, i, kk - 1))
    ensures var u := Steps(t, ups, i, kk);
      forall p, d :: 0 <= p < |t.rows| && d in t.columns && d !in Targets(ups) && d in u.columns ==> Cell(u, p, d) == Cell(t, p, d)
  {
    var c := ups[kk - 1].Target();
    assert StepValue(t, ups[kk - 1], i).Ok?;
    var v := StepValue(t, ups[kk - 1], i).value;
    var prev := Steps(t, ups, i, kk - 1);
    SetLocCells(prev, i, c, v);
    assert Targets(ups)[kk - 1] == c;
  }

  /** The assignment for label `i` and update `kk - 1` takes a frame whose
      target cells are as `CellsAt` says for (i, kk-1) to one whose target
      cells are as it says for (i, kk). */
  lemma AssignmentTargets<N(!new)>(t: Table<N>, ups: seq<Update<N>>, i: nat, kk: nat)
    requires WellFormed(t) && Independent(ups)
    requires 1 <= i && 1 <= kk <= |ups| && DoneOk(t, ups, i, kk) && DoneOk(t, ups, i, kk - 1)
    requires CellsAt(t, ups, i, kk - 1, Steps(t, ups, i, kk - 1))
    ensures var u := Steps(t, ups, i, kk);
      forall p, k :: 0 <= p < |t.rows| && 0 <= k < |ups| && ups[k].Target() in u.columns ==>
        Cell(u, p, ups[k].Target()) == Want(t, ups, i, kk, p, k)
  {
    assert StepValue(t, ups[kk - 1], i).Ok?;
    var prev := Steps(t, ups, i, kk - 1);
    var u := Steps(t, ups, i, kk);
    StepsExtendColumns(t, ups, i, kk);
    forall p, k | 0 <= p < |t.rows| && 0 <= k < |ups| && ups[k].Target() in u.columns
      ensures Cell(u, p, ups[k].Target()) == Want(t, ups, i, kk, p, k)
    {
      TargetCellAfter(t, ups, i, kk, prev, p, k);
    }
  }

  /** Starting label `i` leaves every cell as finishing label `i - 1` did. */
  lemma WantNext<N(!new)>(t: Table<N>, ups: seq<Update<N>>, i: nat)
    requires WellFormed(t) && Independent(ups) && 2 <= i && DoneOk(t, ups, i, 0)
    ensures DoneOk(t, ups, i - 1, |ups|) && Steps(t, ups, i, 0) == Steps(t, ups, i - 1, |ups|)
    ensures forall p, k :: 0 <= p < |t.rows| && 0 <= k < |ups| ==> Want(t, ups, i, 0, p, k) == Want(t, ups, i - 1, |ups|, p, k)
  {
    forall p, k | 0 <= p < |t.rows| && 0 <= k < |ups|
      ensures Want(t, ups, i, 0, p, k) == Want(t, ups, i - 1, |ups|, p, k)
    {
      assert Done(i, 0, t.index[p], k) == Done(i - 1, |ups|, t.index[p], k);
    }
  }

  /** The assignment for label `i` and update `kk - 1` changes what the loop
      has left in one cell only: update `kk - 1`'s target at label `i`. */
  lemma WantAfter<N(!new)>(t: Table<N>, ups: seq<Update<N>>, i: nat, kk: nat, p: nat, k: nat)
    requires WellFormed(t) && 1 <= i && 1 <= kk <= |ups| && DoneOk(t, ups, i, kk) && p < |t.rows| && k < |ups|
    ensures DoneOk(t, ups, i, kk - 1)
    ensures Want(t, ups, i, kk, p, k)
      == if k == kk - 1 && t.index[p] == i then StepValue(t, ups[k], i).value else Want(t, ups, i, kk - 1, p, k)
  {
  }

  /** A target cell after the assignment for label `i` and update `kk - 1`. */
  lemma TargetCellAfter<N(!new)>(t: Table<N>, ups: seq<Update<N>>, i: nat, kk: nat, prev: Table<N>, p: nat, k: nat)
    requires WellFormed(t) && 1 <= i && 1 <= kk <= |ups| && DoneOk(t, ups, i, kk) && Distinct(Targets(ups))
    requires WellFormed(prev) && prev.index == t.index && |prev.rows| == |t.rows| && i in t.index
    requires p < |t.rows| && k < |ups| && StepValue(t, ups[kk - 1], i).Ok? && DoneOk(t, ups, i, kk - 1)
    requires ups[kk - 1].Target() in prev.columns || (i == 1 && ups[kk - 1].Target() !in t.columns)
    requires ups[k].Target() in prev.columns || ups[k].Target() == ups[kk - 1].Target()
    requires ups[k].Target() in prev.columns ==> Cell(prev, p, ups[k].Target()) == Want(t, ups, i, kk - 1, p, k)
    ensures Cell(SetLoc(prev, i, ups[kk - 1].Target(), StepValue(t, ups[kk - 1], i).value), p, ups[k].Target())
      == Want(t, ups, i, kk, p, k)
  {
    var c := ups[kk - 1].Target();
    var v := StepValue(t, ups[kk - 1], i).value;
    var d := ups[k].Target();
    var at := LabelPos(t.index, i).value;
    WantAfter(t, ups, i, kk, p, k);
    SetLocCells(prev, i, c, v);
    if k == kk - 1 && p == at {
    } else if k != kk - 1 {
      DistinctAt(Targets(ups), k, kk - 1);
    } else {
      DistinctAt(t.index, p, at);
      if c !in prev.columns {
        assert !Done(i, kk - 1, t.index[p], k);
      }
    }
  }


  /** The columns after the assignment at (i, kk-1): its target is appended
      at its first assignment when the frame before the loop lacked it. */
  lemma StepsExtendColumns<N(!new)>(t: Table<N>, ups: seq<Update<N>>, i: nat, kk: nat)
    requires Independent(ups) && 1 <= i && 1 <= kk <= |ups|
    ensures var c := ups[kk - 1].Target(); var cols := t.columns + NewColumns(t, ups, i, kk - 1);
      && (c in cols <==> i >= 2 || c in t.columns)
      && (if c in cols then cols else cols + [c]) == t.columns + NewColumns(t, ups, i, kk)
  {
    var ts := Targets(ups);
    var c := ts[kk - 1];
    if i == 1 {
      assert c !in ts[..kk - 1] by {
        forall j | 0 <= j < kk - 1
          ensures ts[j] != c
        {
          DistinctAt(ts, j, kk - 1);
        }
      }
      ExceptSnoc(ts, t.columns, kk - 1);
      var before := NewColumns(t, ups, i, kk - 1);
      if c !in t.columns {
        assert t.columns + before + [c] == t.columns + (before + [c]);
      }
    } else {
      assert ts[..|ups|] == ts;
      assert c in ts;
    }
  }

  /** The label the loop stops at: `len(df)`, or 1 when the range is empty. */
  function LastLabel<N(==, !new)>(t: Table<N>): (i: nat)
    ensures i >= 1 && i >= |t.rows| && (|t.rows| >= 2 ==> i == |t.rows|)
  {
    if |t.rows| <= 1 then 1 else |t.rows|
  }

  /** The loop runs to the end without raising. */
  predicate LoopOk<N(==, !new)>(t: Table<N>, ups: seq<Update<N>>)
    requires WellFormed(t)
  {
    forall L, k :: 1 <= L < |t.rows| && 0 <= k < |ups| ==> StepValue(t, ups[k], L).Ok?
  }

  /** What the whole loop leaves at row position `p` of update `k`'s target:
      the step value for a label in 1..n-1, the old cell otherwise. */
  function Final<N(==, !new)>(t: Table<N>, ups: seq<Update<N>>, p: nat, k: nat): Value
    requires WellFormed(t) && LoopOk(t, ups) && p < |t.rows| && k < |ups|
  {
    if 1 <= t.index[p] < |t.rows| then StepValue(t, ups[k], t.index[p]).value else Original(t, p, ups[k].Target())
  }

  /** The frame after the whole loop: the target of every update holds, at
      every label 1..n-1, its step value; label 0, labels outside 1..n-1 and
      every other column keep their cells; target columns exist once the loop
      body has run at least once. */
  function Apply<N(==, !new)>(t: Table<N>, ups: seq<Update<N>>): (u: Table<N>)
    requires WellFormed(t) && Independent(ups) && LoopOk(t, ups)
    ensures WellFormed(u) && u.index == t.index && |u.rows| == |t.rows|
    ensures t.columns <= u.columns
    ensures forall d :: d in u.columns <==> d in t.columns || (|t.rows| >= 2 && d in Targets(ups))
    ensures forall p, d :: 0 <= p < |t.rows| && d in t.columns && d !in Targets(ups) ==> Cell(u, p, d) == Cell(t, p, d)
    ensures forall p, k :: 0 <= p < |t.rows| && 0 <= k < |ups| && ups[k].Target() in u.columns ==>
      Cell(u, p, ups[k].Target()) ==
        Final(t, ups, p, k)
  {
    var n := |t.rows|;
    var last := LastLabel(t);
    assert Targets(ups)[..|ups|] == Targets(ups);
    var u := Steps(t, ups, last, 0);
    StepsCells(t, ups, last, 0);
    assert forall p, k :: 0 <= p < |t.rows| && 0 <= k < |ups| ==> Want(t, ups, last, 0, p, k) == Final(t, ups, p, k);
    u
  }

  /** Two tables that agree on column `c` and on their labels give the same
      `df.loc[L, c]` for every label. */
  lemma LocAgrees<N(!new)>(t: Table<N>, u: Table<N>, c: N)
    requires WellFormed(t) && WellFormed(u) && u.index == t.index && |u.rows| == |t.rows|
    requires c in u.columns <==> c in t.columns
    requires c in t.columns ==> forall p :: 0 <= p < |t.rows| ==> Cell(u, p, c) == Cell(t, p, c)
    ensures forall L :: Loc(u, L, c) == Loc(t, L, c)
  {
  }

  /** A step reads only its source column and the labels: two frames that
      agree on those give the same step value. */
  lemma StepAgrees<N(!new)>(t: Table<N>, u: Table<N>, up: Update<N>, i: nat)
    requires WellFormed(t) && WellFormed(u) && u.index == t.index && |u.rows| == |t.rows| && i >= 1
    requires up.Source() in u.columns <==> up.Source() in t.columns
    requires up.Source() in t.columns ==> forall p :: 0 <= p < |t.rows| ==> Cell(u, p, up.Source()) == Cell(t, p, up.Source())
    ensures StepValue(u, up, i) == StepValue(t, up, i)
  {
    LocAgrees(t, u, up.Source());
  }

  /** A loop body reads only source columns, which the loop never writes: at
      every point it computes what it would have computed on the frame before
      the loop. */
  lemma ReadsOriginal<N(!new)>(t: Table<N>, ups: seq<Update<N>>, i: nat, kk: nat)
    requires WellFormed(t) && Independent(ups)
    requires 1 <= i && kk < |ups| && DoneOk(t, ups, i, kk)
    ensures StepValue(Steps(t, ups, i, kk), ups[kk], i) == StepValue(t, ups[kk], i)
  {
    var u := Steps(t, ups, i, kk);
    var src := ups[kk].Source();
    forall j | 0 <= j < |ups|
      ensures Targets(ups)[j] != src
    {
      assert Unwritten(ups, kk, j);
    }
    StepsCells(t, ups, i, kk);
    StepAgrees(t, u, ups[kk], i);
  }

  /** Finishing label `i` is starting label `i + 1`. */
  lemma NextLabel<N(!new)>(t: Table<N>, ups: seq<Update<N>>, i: nat)
    requires WellFormed(t) && Independent(ups) && 1 <= i && DoneOk(t, ups, i, |ups|)
    ensures DoneOk(t, ups, i + 1, 0) && Steps(t, ups, i + 1, 0) == Steps(t, ups, i, |ups|)
  {
  }

  /** A step that raises stops a loop that would otherwise have run to the end. */
  lemma StopsLoop<N(!new)>(t: Table<N>, ups: seq<Update<N>>, i: nat, k: nat)
    requires WellFormed(t) && 1 <= i < |t.rows| && k < |ups| && !StepValue(t, ups[k], i).Ok?
    ensures !LoopOk(t, ups)
  {
  }

  /** The loop reaches label `i` holding `u`: every step before label `i` has
      run without raising, and `u` is the frame they leave. */
  ghost predicate Reaches<N(!new)>(t: Table<N>, ups: seq<Update<N>>, i: nat, u: Table<N>)
    requires WellFormed(t) && Independent(ups)
  {
    1 <= i && DoneOk(t, ups, i, 0) && u == Start(t, ups, i)
  }

  /** Once `i` reaches the row count, the loop has run every step. */
  lemma LoopEnd<N(!new)>(t: Table<N>, ups: seq<Update<N>>, u: Table<N>)
    requires WellFormed(t) && Independent(ups) && Reaches(t, ups, LastLabel(t), u)
    ensures LoopOk(t, ups) && u == Apply(t, ups)
  {
  }

  /** The loop body for label `i` and update `k`: `df.loc[i, target] = ...`. */
  method StepInPlace<N(==, !new)>(df: DataFrame<N>, ghost t: Table<N>, ups: seq<Update<N>>, i: nat, k: nat) returns (r: Outcome)
    requires WellFormed(t) && Independent(ups) && 1 <= i && k < |ups| && DoneOk(t, ups, i, k)
    requires df.Valid() && df.Value() == Steps(t, ups, i, k)
    modifies df
    ensures df.Valid()
    ensures r.Pass? <==> StepValue(t, ups[k], i).Ok?
    ensures r.Pass? ==> DoneOk(t, ups, i, k + 1) && df.Value() == Steps(t, ups, i, k + 1)
  {
    ReadsOriginal(t, ups, i, k);
    var v := StepValue(df.Value(), ups[k], i);
    if v.Err? {
      return Fail(v.error);
    }
    df.SetCell(i, ups[k].Target(), v.value);
    r := Pass;
  }

  /** `for i in range(1, len(df)): df.loc[i, target] = ...` for each update
      in turn, on the frame in place; the first failing step raises. */
  method ApplyInPlace<N(==, !new)>(df: DataFrame<N>, ups: seq<Update<N>>) returns (r: Outcome)
    requires df.Valid() && Independent(ups)
    modifies df
    ensures df.Valid()
    ensures r.Pass? <==> LoopOk(old(df.Value()), ups)
    ensures r.Pass? ==> df.Value() == Apply(old(df.Value()), ups)
  {
    ghost var t := df.Value();
    r := RunLabels(df, t, ups);
    if r.Pass? {
      LoopEnd(t, ups, df.Value());
    }
  }

  /** The loop over the labels 1..n-1, stopped by the first failing step. */
  method RunLabels<N(==, !new)>(df: DataFrame<N>, ghost t: Table<N>, ups: seq<Update<N>>) returns (r: Outcome)
    requires WellFormed(t) && Independent(ups) && Reaches(t, ups, 1, df.Value())
    modifies df
    ensures df.Valid()
    ensures r.Fail? ==> !LoopOk(t, ups)
    ensures r.Pass? ==> Reaches(t, ups, LastLabel(t), df.Value())
  {
    var n := |df.rows|;
    assert n == |t.rows|;
    var i := 1;
    while i < n
      invariant i == 1 || i <= n
      invariant Reaches(t, ups, i, df.Value())
    {
      r := LabelInPlace(df, t, ups, i);
      if r.Fail? {
        return;
      }
      i := i + 1;
    }
    assert i == LastLabel(t);
    r := Pass;
  }

  /** Every update of one label `i`, in turn. */
  method LabelInPlace<N(==, !new)>(df: DataFrame<N>, ghost t: Table<N>, ups: seq<Update<N>>, i: nat) returns (r: Outcome)
    requires WellFormed(t) && Independent(ups) && Reaches(t, ups, i, df.Value()) && i < |t.rows|
    modifies df
    ensures df.Valid()
    ensures r.Fail? ==> !LoopOk(t, ups)
    ensures r.Pass? ==> Reaches(t, ups, i + 1, df.Value())
  {
    var k := 0;
    while k < |ups|
      invariant k <= |ups|
      invariant DoneOk(t, ups, i, k)
      invariant df.Value() == Steps(t, ups, i, k)
    {
      r := StepInPlace(df, t, ups, i, k);
      if r.Fail? {
        StopsLoop(t, ups, i, k);
        return;
      }
      k := k + 1;
    }
    NextLabel(t, ups, i);
    r := Pass;
  }

  // ---------------------------------------------------------------------------
  // On a frame labelled 0..n-1, as every frame the scripts loop over is, label
  // L is row position L.

  /** `df.loc[L, c]` is the cell at row position `L`. */
  lemma LocOnRange<N(!new)>(t: Table<N>, L: nat, c: N)
    requires WellFormed(t) && t.index == Range(|t.rows|) && L < |t.rows| && c in t.columns
    ensures Loc(t, L, c) == Ok(Cell(t, L, c))
  {
    assert t.index[L] == L;
    PositionOfDistinct(t.index, L);
  }

  /** A first difference at label `L` on a frame labelled 0..n-1 is the cell
      of row `L` minus the cell of row `L-1`. */
  lemma DeltaStep<N(!new)>(t: Table<N>, cum: N, daily: N, L: nat)
    requires WellFormed(t) && t.index == Range(|t.rows|) && 1 <= L < |t.rows| && cum in t.columns
    ensures StepValue(t, Delta(cum, daily), L) == Sub(Cell(t, L, cum), Cell(t, L - 1, cum))
  {
    LocOnRange(t, L, cum);
    LocOnRange(t, L - 1, cum);
  }

  /** Only first differences, of existing columns that hold no text. */
  predicate NumericDeltas<N(==, !new)>(t: Table<N>, ups: seq<Update<N>>)
    requires WellFormed(t)
  {
    forall k :: 0 <= k < |ups| ==>
      && ups[k].Delta? && ups[k].cumulative in t.columns
      && forall p :: 0 <= p < |t.rows| ==> !Cell(t, p, ups[k].cumulative).Str?
  }

  /** Only first differences, of integer columns. */
  predicate IntegerDeltas<N(==, !new)>(t: Table<N>, ups: seq<Update<N>>)
    requires WellFormed(t)
  {
    forall k :: 0 <= k < |ups| ==>
      && ups[k].Delta? && ups[k].cumulative in t.columns
      && forall p :: 0 <= p < |t.rows| ==> Cell(t, p, ups[k].cumulative).Int?
  }

  /** First differences of columns without text never raise on a frame
      labelled 0..n-1. */
  lemma DeltasRun<N(!new)>(t: Table<N>, ups: seq<Update<N>>)
    requires WellFormed(t) && t.index == Range(|t.rows|) && NumericDeltas(t, ups)
    ensures LoopOk(t, ups)
  {
    forall L, k | 1 <= L < |t.rows| && 0 <= k < |ups|
      ensures StepValue(t, ups[k], L).Ok?
    {
      DeltaStep(t, ups[k].cumulative, ups[k].daily, L);
    }
  }

  /** On a frame of two rows or more labelled 0..n-1, a loop of first
      differences runs to the end exactly when no running total holds text:
      a text cell makes the subtraction of its row, or of the row after it,
      raise TypeError. */
  lemma DeltasRunExactly<N(!new)>(t: Table<N>, ups: seq<Update<N>>)
    requires WellFormed(t) && t.index == Range(|t.rows|) && |t.rows| >= 2
    requires forall k :: 0 <= k < |ups| ==> ups[k].Delta? && ups[k].cumulative in t.columns
    ensures LoopOk(t, ups) <==> NumericDeltas(t, ups)
  {
    if NumericDeltas(t, ups) {
      DeltasRun(t, ups);
    } else {
      var k, p :| 0 <= k < |ups| && 0 <= p < |t.rows| && Cell(t, p, ups[k].cumulative).Str?;
      var L := if p == 0 then 1 else p;
      assert ups[k] == Delta(ups[k].cumulative, ups[k].daily);
      DeltaStep(t, ups[k].cumulative, ups[k].daily, L);
      assert StepValue(t, ups[k], L) == Err(TypeError);
    }
  }

  /** The loop of first differences on a frame labelled 0..n-1 (n >= 2)
      whose running totals hold no text: row `p` >= 1 of every daily column
      holds `cum[p] - cum[p-1]` (NaN when either is NaN, an integer when both
      are), row 0 keeps its old cell (NaN in a new column), and the
      cumulative columns do not change. */
  lemma DeltaCells<N(!new)>(t: Table<N>, ups: seq<Update<N>>, k: nat)
    requires WellFormed(t) && t.index == Range(|t.rows|) && |t.rows| >= 2
    requires Independent(ups) && NumericDeltas(t, ups) && k < |ups|
    ensures LoopOk(t, ups)
    ensures var u := Apply(t, ups); var cum := ups[k].cumulative; var daily := ups[k].daily;
      && daily in u.columns && cum in u.columns
      && (forall p :: 1 <= p < |t.rows| ==> Sub(Cell(t, p, cum), Cell(t, p - 1, cum)) == Ok(Cell(u, p, daily)))
      && Cell(u, 0, daily) == Original(t, 0, daily)
      && (forall p :: 0 <= p < |t.rows| ==> Cell(u, p, cum) == Cell(t, p, cum))
  {
    DeltasRun(t, ups);
    var u := Apply(t, ups);
    var cum := ups[k].cumulative;
    assert ups[k].Target() == Targets(ups)[k];
    SourceUnwritten(ups, k);
    DeltaColumn(t, ups, k);
    assert Cell(u, 0, ups[k].daily) == Final(t, ups, 0, k);
  }

  /** The daily column of update `k` after the loop, from label 1 on. */
  lemma DeltaColumn<N(!new)>(t: Table<N>, ups: seq<Update<N>>, k: nat)
    requires WellFormed(t) && t.index == Range(|t.rows|) && |t.rows| >= 2
    requires Independent(ups) && NumericDeltas(t, ups) && LoopOk(t, ups) && k < |ups|
    ensures var u := Apply(t, ups); var cum := ups[k].cumulative;
      && ups[k].daily in u.columns
      && forall p :: 1 <= p < |t.rows| ==> Sub(Cell(t, p, cum), Cell(t, p - 1, cum)) == Ok(Cell(u, p, ups[k].daily))
  {
    var u := Apply(t, ups);
    assert ups[k].Target() == Targets(ups)[k];
    forall p | 1 <= p < |t.rows|
      ensures Sub(Cell(t, p, ups[k].cumulative), Cell(t, p - 1, ups[k].cumulative)) == Ok(Cell(u, p, ups[k].daily))
    {
      assert Cell(u, p, ups[k].daily) == Final(t, ups, p, k);
      DeltaFinal(t, ups, k, p);
    }
  }

  /** No loop body writes the column an independent update reads. */
  lemma SourceUnwritten<N(!new)>(ups: seq<Update<N>>, k: nat)
    requires Independent(ups) && k < |ups|
    ensures ups[k].Source() !in Targets(ups)
  {
    forall j | 0 <= j < |ups|
      ensures Targets(ups)[j] != ups[k].Source()
    {
      assert Unwritten(ups, k, j);
    }
  }

  /** The final cell of a first difference at label `p` >= 1. */
  lemma DeltaFinal<N(!new)>(t: Table<N>, ups: seq<Update<N>>, k: nat, p: nat)
    requires WellFormed(t) && t.index == Range(|t.rows|) && NumericDeltas(t, ups) && LoopOk(t, ups)
    requires k < |ups| && 1 <= p < |t.rows|
    ensures Sub(Cell(t, p, ups[k].cumulative), Cell(t, p - 1, ups[k].cumulative)) == Ok(Final(t, ups, p, k))
  {
    assert ups[k] == Delta(ups[k].cumulative, ups[k].daily);
    assert t.index[p] == p;
    DeltaStep(t, ups[k].cumulative, ups[k].daily, p);
  }
}

