/** The helper functions of the daily ETL script for the Spanish regional
    COVID-19 series: `transform` (one region's rows of a per-region file),
    `normalize_ccaa` (the per-region files with readable column names),
    `deacumulate` (daily figures from running totals) and the melt-and-sort
    half of `to_json`. */
module EtlMain {
  import opened Wrappers
  import opened Frames
  import opened Series
  import opened Ordering
  import opened Reshape
  import opened Delay

  // ---------------------------------------------------------------------------
  // transform

  /** `df.cod_ine != 6` is false: the row is Cantabria's (INE code 6). A text
      cell or NaN never equals the number 6. */
  predicate IsCantabria(v: Value) {
    IsNumber(v) && AsReal(v) == 6.0
  }

  /** The renaming `transform` applies to the figure column. */
  function FigureName(variable: string): map<string, string> {
    map["total" := variable]
  }

  /** The rows half of `transform`: Cantabria's rows, relabelled 0..k-1 by
      `reset_index()`, whose column of old labels is dropped again. */
  function CantabriaRows(t: Table<string>): Result<Table<string>>
    requires WellFormed(t)
  {
    var kept :- FilterRows(t, "cod_ine", IsCantabria);
    var relabelled :- ResetIndex(kept, false);
    DropColumn(relabelled, "index")
  }

  /** The columns half of `transform`: without `cod_ine` and `CCAA`, with
      `total` renamed. */
  function FigureColumns(t: Table<string>, variable: string): Result<Table<string>>
    requires WellFormed(t)
  {
    var noCode :- DropColumn(t, "cod_ine");
    var noName :- DropColumn(noCode, "CCAA");
    RenameColumns(noName, FigureName(variable))
  }

  /** `transform(df, variable)` as a value. */
  function Transformed(t: Table<string>, variable: string): Result<Table<string>>
    requires WellFormed(t)
  {
    var rows :- CantabriaRows(t);
    FigureColumns(rows, variable)
  }

  /** The first three statements of `transform`, in place. */
  method KeepCantabria(df: DataFrame<string>) returns (r: Outcome)
    requires df.Valid()
    modifies df
    ensures df.Valid()
    ensures r.Pass? ==> CantabriaRows(old(df.Value())) == Ok(df.Value())
    ensures r.Fail? ==> CantabriaRows(old(df.Value())) == Err(r.error)
  {
    r := df.DropRowsUnless("cod_ine", IsCantabria);
    if r.Fail? { return; }
    r := ResetIndexInPlace(df, false);
    if r.Fail? { return; }
    r := df.Drop("index");
  }

  /** The last three statements of `transform`, in place. */
  method ReshapeColumns(df: DataFrame<string>, variable: string) returns (r: Outcome)
    requires df.Valid()
    modifies df
    ensures df.Valid()
    ensures r.Pass? ==> FigureColumns(old(df.Value()), variable) == Ok(df.Value())
    ensures r.Fail? ==> FigureColumns(old(df.Value()), variable) == Err(r.error)
  {
    r := df.Drop("cod_ine");
    if r.Fail? { return; }
    r := df.Drop("CCAA");
    if r.Fail? { return; }
    r := df.Rename(FigureName(variable));
  }

  /** `transform(df, variable)`: every step changes the caller's frame in
      place; the first one that raises stops it. */
  method Transform(df: DataFrame<string>, variable: string) returns (r: Outcome)
    requires df.Valid()
    modifies df
    ensures df.Valid()
    ensures r.Pass? ==> Transformed(old(df.Value()), variable) == Ok(df.Value())
    ensures r.Fail? ==> Transformed(old(df.Value()), variable) == Err(r.error)
  {
    r := KeepCantabria(df);
    if r.Fail? { return; }
    r := ReshapeColumns(df, variable);
  }

  /** The rows half keeps exactly Cantabria's rows, in their order, with
      their cells, labelled 0..k-1 and under the same columns (when the frame
      had no `index` column of its own). */
  lemma CantabriaRowsKept(t: Table<string>)
    requires WellFormed(t) && "index" !in t.columns && CantabriaRows(t).Ok?
    ensures var u := CantabriaRows(t).value;
      && u.index == Range(|u.rows|) && u.columns == t.columns
      && exists ps: seq<nat> :: CantabriaAt(t, u, ps)
  {
    var kept := FilterRows(t, "cod_ine", IsCantabria).value;
    var ps: seq<nat> :| KeepsExactly(t, "cod_ine", IsCantabria, ps) && kept == Select(t, ps);
    var relabelled := ResetIndex(kept, false).value;
    var u := CantabriaRows(t).value;
    assert Position(relabelled.columns, "index") == 0;
    assert relabelled.columns[1..] == t.columns;
    forall j, c | 0 <= j < |ps| && c in t.columns
      ensures Cell(u, j, c) == Cell(t, ps[j], c)
    {
      assert Cell(u, j, c) == Cell(relabelled, j, c) == Cell(kept, j, c);
    }
    assert CantabriaAt(t, u, ps);
  }

  /** `ps` are the positions of Cantabria's rows in `t`, and row `j` of `u`
      holds the cells of row `ps[j]`. */
  ghost predicate CantabriaAt(t: Table<string>, u: Table<string>, ps: seq<nat>)
    requires WellFormed(t) && WellFormed(u) && u.columns == t.columns
  {
    && "cod_ine" in t.columns
    && KeepsExactly(t, "cod_ine", IsCantabria, ps) && |ps| == |u.rows|
    && forall j, c :: 0 <= j < |ps| && c in t.columns ==> Cell(u, j, c) == Cell(t, ps[j], c)
  }

  /** The columns half removes `cod_ine` and `CCAA` and renames `total`:
      every column it leaves is an old one other than those two, renamed. */
  lemma FigureColumnsNames(t: Table<string>, variable: string)
    requires WellFormed(t) && FigureColumns(t, variable).Ok?
    ensures var u := FigureColumns(t, variable).value;
      && u.index == t.index && |u.rows| == |t.rows| && |u.columns| == |t.columns| - 2
      && forall d :: d in u.columns ==>
           exists c :: c in t.columns && c != "cod_ine" && c != "CCAA" && d == Renamed(FigureName(variable), c)
  {
    var noCode := DropColumn(t, "cod_ine").value;
    var noName := DropColumn(noCode, "CCAA").value;
    var u := FigureColumns(t, variable).value;
    assert forall d :: d in noName.columns <==> d in t.columns && d != "cod_ine" && d != "CCAA";
    forall d | d in u.columns
      ensures exists c :: c in t.columns && c != "cod_ine" && c != "CCAA" && d == Renamed(FigureName(variable), c)
    {
      var k := Position(u.columns, d);
      assert noName.columns[k] in noName.columns;
    }
  }

  /** The columns half leaves every other cell under its (renamed) column, in
      every row. */
  lemma FigureColumnsCells(t: Table<string>, variable: string)
    requires WellFormed(t) && FigureColumns(t, variable).Ok?
    ensures var u := FigureColumns(t, variable).value;
      forall p, c :: 0 <= p < |t.rows| && c in t.columns && c != "cod_ine" && c != "CCAA" ==>
        RenamedCell(t, p, c, variable, u, p)
  {
    var noCode := DropColumn(t, "cod_ine").value;
    var noName := DropColumn(noCode, "CCAA").value;
    var u := FigureColumns(t, variable).value;
    forall p, c | 0 <= p < |t.rows| && c in t.columns && c != "cod_ine" && c != "CCAA"
      ensures RenamedCell(t, p, c, variable, u, p)
    {
      assert c in noCode.columns && c in noName.columns;
      assert Cell(noName, p, c) == Cell(noCode, p, c) == Cell(t, p, c);
    }
  }

  /** The cell of `src` at row `sp` and column `c` sits in row `up` of `u`,
      under `c` renamed for `variable`. */
  ghost predicate RenamedCell(src: Table<string>, sp: nat, c: string, variable: string, u: Table<string>, up: nat)
    requires WellFormed(src) && WellFormed(u)
  {
    && sp < |src.rows| && c in src.columns && up < |u.rows|
    && Renamed(FigureName(variable), c) in u.columns
    && Cell(u, up, Renamed(FigureName(variable), c)) == Cell(src, sp, c)
  }

  /** `transform` keeps exactly Cantabria's rows, in their order, labelled
      0..k-1; it removes `cod_ine` and `CCAA`, renames `total`, and every
      other cell of a kept row stays under its (renamed) column. */
  lemma TransformKeepsCantabria(t: Table<string>, variable: string)
    requires WellFormed(t) && "index" !in t.columns && Transformed(t, variable).Ok?
    ensures var u := Transformed(t, variable).value;
      && u.index == Range(|u.rows|)
      && |u.columns| == |t.columns| - 2
      && (forall d :: d in u.columns ==>
            exists c :: c in t.columns && c != "cod_ine" && c != "CCAA" && d == Renamed(FigureName(variable), c))
      && exists ps: seq<nat> :: TransformedAt(t, variable, u, ps)
  {
    var rows := CantabriaRows(t).value;
    var u := Transformed(t, variable).value;
    CantabriaRowsKept(t);
    var ps: seq<nat> :| CantabriaAt(t, rows, ps);
    assert u == FigureColumns(rows, variable).value;
    FigureColumnsNames(rows, variable);
    TransformedAtIntro(t, variable, rows, ps);
  }

  lemma TransformedAtIntro(t: Table<string>, variable: string, rows: Table<string>, ps: seq<nat>)
    requires WellFormed(t) && WellFormed(rows) && rows.columns == t.columns && CantabriaAt(t, rows, ps)
    requires FigureColumns(rows, variable).Ok?
    ensures TransformedAt(t, variable, FigureColumns(rows, variable).value, ps)
  {
    var u := FigureColumns(rows, variable).value;
    FigureColumnsCells(rows, variable);
    forall j, c | 0 <= j < |ps| && c in t.columns && c != "cod_ine" && c != "CCAA"
      ensures RenamedCell(t, ps[j], c, variable, u, j)
    {
      assert RenamedCell(rows, j, c, variable, u, j);
      assert Cell(rows, j, c) == Cell(t, ps[j], c);
    }
  }

  /** `ps` are the positions of Cantabria's rows in `t`, and row `j` of `u`
      holds the cells of row `ps[j]` other than `cod_ine` and `CCAA`, under
      their renamed columns. */
  ghost predicate TransformedAt(t: Table<string>, variable: string, u: Table<string>, ps: seq<nat>)
    requires WellFormed(t) && WellFormed(u)
  {
    && "cod_ine" in t.columns
    && KeepsExactly(t, "cod_ine", IsCantabria, ps) && |ps| == |u.rows|
    && forall j, c :: 0 <= j < |ps| && c in t.columns && c != "cod_ine" && c != "CCAA" ==>
         RenamedCell(t, ps[j], c, variable, u, j)
  }

  /** The error cases of `transform`: no `cod_ine` column is an
      AttributeError (the attribute access `df.cod_ine`), a missing `CCAA`
      column a KeyError from `drop`. */
  lemma TransformErrors(t: Table<string>, variable: string)
    requires WellFormed(t)
    ensures "cod_ine" !in t.columns ==> Transformed(t, variable) == Err(AttributeError)
    ensures "cod_ine" in t.columns && "index" !in t.columns && "CCAA" !in t.columns ==>
      Transformed(t, variable) == Err(KeyError)
  {
    if "cod_ine" in t.columns && "index" !in t.columns && "CCAA" !in t.columns {
      CantabriaRowsKept(t);
    }
  }

  // ---------------------------------------------------------------------------
  // normalize_ccaa

  /** The renaming `normalize_ccaa` applies. */
  function CcaaNames(variable: string): map<string, string> {
    map["CCAA" := "ccaa", "total" := variable]
  }

  /** `df_new.ccaa == 'Total'` is false: the row is a region, not the
      national total. */
  predicate NotTotal(v: Value) {
    v != Str("Total")
  }

  /** `normalize_ccaa(df, variable)` as a value: a renamed copy without
      `cod_ine` and without the national-total rows, which keep their old
      labels. `set_index('fecha', 'ccaa')`'s result is discarded, so it only
      raises KeyError when there is no `fecha`. */
  function NormalizedCcaa(t: Table<string>, variable: string): Result<Table<string>>
    requires WellFormed(t)
  {
    var renamed :- RenameColumns(t, CcaaNames(variable));
    var noCode :- DropColumn(renamed, "cod_ine");
    var regions :- FilterRows(noCode, "ccaa", NotTotal);
    SetIndexDiscarded(regions, "fecha")
  }

  /** `normalize_ccaa(df, variable)`: `rename` without `inplace` makes a new
      frame, which the drops then change; the caller's frame is left as it
      was. */
  method NormalizeCcaa(df: DataFrame<string>, variable: string) returns (r: Result<DataFrame<string>>)
    requires df.Valid()
    ensures df.Value() == old(df.Value())
    ensures r.Ok? <==> NormalizedCcaa(df.Value(), variable).Ok?
    ensures r.Ok? ==> fresh(r.value) && r.value.Valid() && r.value.Value() == NormalizedCcaa(df.Value(), variable).value
    ensures r.Err? ==> NormalizedCcaa(df.Value(), variable) == Err(r.error)
  {
    var renamed := RenameColumns(df.Value(), CcaaNames(variable));
    if renamed.Err? {
      return Err(renamed.error);
    }
    var copy := new DataFrame(renamed.value);
    var o := copy.Drop("cod_ine");
    if o.Fail? {
      return Err(o.error);
    }
    o := copy.DropRowsUnless("ccaa", NotTotal);
    if o.Fail? {
      return Err(o.error);
    }
    o := copy.SetIndex("fecha");
    if o.Fail? {
      return Err(o.error);
    }
    r := Ok(copy);
  }

  /** `normalize_ccaa` keeps exactly the rows whose `CCAA` is not `Total`, in
      their order and with their old labels; `CCAA` becomes `ccaa`, `total`
      becomes the variable, `cod_ine` goes, and the kept cells stay. */
  lemma NormalizedCcaaRows(t: Table<string>, variable: string)
    requires WellFormed(t) && "CCAA" in t.columns && NormalizedCcaa(t, variable).Ok?
    ensures var u := NormalizedCcaa(t, variable).value;
      && "ccaa" in u.columns && "cod_ine" !in u.columns
      && exists ps: seq<nat> :: RegionsAt(t, variable, u, ps)
  {
    var m := CcaaNames(variable);
    var renamed := RenameColumns(t, m).value;
    var noCode := DropColumn(renamed, "cod_ine").value;
    var u := FilterRows(noCode, "ccaa", NotTotal).value;
    var ps: seq<nat> :| KeepsExactly(noCode, "ccaa", NotTotal, ps) && u == Select(noCode, ps);
    RegionsAtIntro(t, variable, noCode, ps);
  }

  /** `ps` are the positions of the rows of `t` whose `CCAA` is not `Total`,
      and row `i` of `u` is row `ps[i]`: its label, and its cells under their
      renamed columns, but for `cod_ine`. */
  ghost predicate RegionsAt(t: Table<string>, variable: string, u: Table<string>, ps: seq<nat>)
    requires WellFormed(t) && WellFormed(u) && "CCAA" in t.columns
  {
    && KeepsExactly(t, "CCAA", NotTotal, ps) && |u.rows| == |ps|
    && (forall i :: 0 <= i < |ps| ==> u.index[i] == t.index[ps[i]])
    && forall i, c :: 0 <= i < |ps| && c in t.columns && Renamed(CcaaNames(variable), c) != "cod_ine" ==>
         Renamed(CcaaNames(variable), c) in u.columns
         && Cell(u, i, Renamed(CcaaNames(variable), c)) == Cell(t, ps[i], c)
  }

  lemma KeepsRegions(t: Table<string>, variable: string, noCode: Table<string>, ps: seq<nat>)
    requires WellFormed(t) && "CCAA" in t.columns && RenameColumns(t, CcaaNames(variable)).Ok?
    requires DropColumn(RenameColumns(t, CcaaNames(variable)).value, "cod_ine") == Ok(noCode)
    requires "ccaa" in noCode.columns && KeepsExactly(noCode, "ccaa", NotTotal, ps)
    ensures KeepsExactly(t, "CCAA", NotTotal, ps)
  {
    var renamed := RenameColumns(t, CcaaNames(variable)).value;
    assert Renamed(CcaaNames(variable), "CCAA") == "ccaa";
    assert forall p :: 0 <= p < |t.rows| ==> Cell(noCode, p, "ccaa") == Cell(renamed, p, "ccaa") == Cell(t, p, "CCAA");
  }

  lemma RegionsAtIntro(t: Table<string>, variable: string, noCode: Table<string>, ps: seq<nat>)
    requires WellFormed(t) && "CCAA" in t.columns && RenameColumns(t, CcaaNames(variable)).Ok?
    requires DropColumn(RenameColumns(t, CcaaNames(variable)).value, "cod_ine") == Ok(noCode)
    requires "ccaa" in noCode.columns && KeepsExactly(noCode, "ccaa", NotTotal, ps)
    ensures WellFormed(Select(noCode, ps)) && RegionsAt(t, variable, Select(noCode, ps), ps)
  {
    var m := CcaaNames(variable);
    var renamed := RenameColumns(t, m).value;
    var u := Select(noCode, ps);
    SelectWellFormed(noCode, ps);
    KeepsRegions(t, variable, noCode, ps);
    RegionsCells(t, CcaaNames(variable), renamed, noCode, ps, u);
  }

  lemma RegionsCells(t: Table<string>, m: map<string, string>, renamed: Table<string>, noCode: Table<string>,
                     ps: seq<nat>, u: Table<string>)
    requires WellFormed(t) && RenameColumns(t, m) == Ok(renamed) && DropColumn(renamed, "cod_ine") == Ok(noCode)
    requires forall i :: 0 <= i < |ps| ==> ps[i] < |noCode.rows|
    requires u == Select(noCode, ps) && WellFormed(u)
    ensures forall i, c :: 0 <= i < |ps| && c in t.columns && Renamed(m, c) != "cod_ine" ==>
      Renamed(m, c) in u.columns && Cell(u, i, Renamed(m, c)) == Cell(t, ps[i], c)
  {
    forall i, c | 0 <= i < |ps| && c in t.columns && Renamed(m, c) != "cod_ine"
      ensures Renamed(m, c) in noCode.columns && Cell(u, i, Renamed(m, c)) == Cell(t, ps[i], c)
    {
      assert Cell(u, i, Renamed(m, c)) == Cell(noCode, ps[i], Renamed(m, c)) == Cell(renamed, ps[i], Renamed(m, c));
    }
  }

  /** The finding: `normalize_ccaa` leaves gaps in the labels where it drops
      `Total` rows, and `delay_date` then reads `df.loc[i, 'fecha']` for
      i in 0..len(df)-1. When a `Total` row comes before a regional row of a
      file labelled 0..n-1, some label below the new length is gone, so the
      loop cannot finish: some step raises KeyError. When every date can be
      moved back a day, that KeyError is the first exception it raises. */
  lemma TotalRowBreaksDelay(t: Table<string>, variable: string, p: nat, q: nat)
    requires WellFormed(t) && t.index == Range(|t.rows|) && "CCAA" in t.columns
    requires NormalizedCcaa(t, variable).Ok?
    requires p < q < |t.rows| && Cell(t, p, "CCAA") == Str("Total") && Cell(t, q, "CCAA") != Str("Total")
    ensures var u := NormalizedCcaa(t, variable).value;
      && !StepsOk(u, "fecha", |u.rows|, DelayCell)
      && (exists L :: 0 <= L < |u.rows| && StepAt(u, "fecha", L, DelayCell) == Err(LabelError(L)))
      && "fecha" in u.columns
      && ((forall r :: 0 <= r < |u.rows| ==> DelayCell(Cell(u, r, "fecha")).Ok?) ==>
            exists L :: 0 <= L < |u.rows| && StepsOk(u, "fecha", L, DelayCell)
                        && StepAt(u, "fecha", L, DelayCell) == Err(LabelError(L)))
  {
    var u := NormalizedCcaa(t, variable).value;
    var j := TotalRowLeavesGap(t, variable, p, q);
    LabelGapFails(u, "fecha", DelayCell, j);
    if forall r :: 0 <= r < |u.rows| ==> DelayCell(Cell(u, r, "fecha")).Ok? {
      FirstLabelGap(u, "fecha", DelayCell, j);
    }
  }

  /** A dropped `Total` row before a kept one leaves a label of at least the
      new length. */
  lemma TotalRowLeavesGap(t: Table<string>, variable: string, p: nat, q: nat) returns (j: nat)
    requires WellFormed(t) && t.index == Range(|t.rows|) && "CCAA" in t.columns
    requires NormalizedCcaa(t, variable).Ok?
    requires p < q < |t.rows| && Cell(t, p, "CCAA") == Str("Total") && Cell(t, q, "CCAA") != Str("Total")
    ensures var u := NormalizedCcaa(t, variable).value; j < |u.rows| && u.index[j] >= |u.rows|
  {
    NormalizedCcaaRows(t, variable);
    var u := NormalizedCcaa(t, variable).value;
    var ps: seq<nat> :| RegionsAt(t, variable, u, ps);
    assert u.index[Position(ps, q)] == q;
    forall i | 0 <= i < |ps|
      ensures u.index[i] != p
    {
      assert u.index[i] == t.index[ps[i]] == ps[i];
    }
    MissingLabel(u.index, p, q);
    j :| 0 <= j < |u.rows| && u.index[j] >= |u.rows|;
  }

  /** Distinct labels that skip `p` but reach past it include one at least
      as large as their number. */
  lemma MissingLabel(index: seq<nat>, p: nat, q: nat)
    requires Distinct(index) && p < q && q in index && p !in index
    ensures exists j :: 0 <= j < |index| && index[j] >= |index|
  {
    LabelsCover(index);
    var k := Position(index, q);
    if index[k] < |index| {
      assert !(0 <= p < |index| ==> p in index);
    }
  }

  /** The corrected `normalize_ccaa`: the same rows, relabelled 0..k-1
      (`reset_index(drop=True)`) so that the later per-label loops can read
      them. */
  function NormalizedCcaaRelabelled(t: Table<string>, variable: string): Result<Table<string>>
    requires WellFormed(t)
  {
    var u :- NormalizedCcaa(t, variable);
    ResetIndex(u, true)
  }

  /** With the relabelling, `delay_date` runs to the end exactly when the
      frame has a `fecha` column whose every cell is a date after 0001-01-01,
      and it then leaves every other cell as it was. */
  lemma RelabelledDelayOk(t: Table<string>, variable: string)
    requires WellFormed(t) && NormalizedCcaaRelabelled(t, variable).Ok?
    requires |NormalizedCcaaRelabelled(t, variable).value.rows| > 0
    ensures var u := NormalizedCcaaRelabelled(t, variable).value;
      && u.index == Range(|u.rows|)
      && (StepsOk(u, "fecha", |u.rows|, DelayCell) <==>
            "fecha" in u.columns && forall p :: 0 <= p < |u.rows| ==> DelayCell(Cell(u, p, "fecha")).Ok?)
  {
    var u := NormalizedCcaaRelabelled(t, variable).value;
    StepsOkMeaning(u, "fecha", DelayCell);
  }

  // ---------------------------------------------------------------------------
  // deacumulate

  /** A first difference reads one column and writes another. */
  lemma SingleDeltaIndependent(cumulative: string, daily: string)
    requires cumulative != daily
    ensures Independent([Delta(cumulative, daily)])
  {
    assert Unwritten([Delta(cumulative, daily)], 0, 0);
  }

  /** `deacumulate(df, variable1, variable2)`: for every label i in
      1..len(df)-1, `df.loc[i, variable2] = df.loc[i, variable1] -
      df.loc[i-1, variable1]`, in place. */
  method Deacumulate(df: DataFrame<string>, cumulative: string, daily: string) returns (r: Outcome)
    requires df.Valid() && cumulative != daily
    modifies df
    ensures df.Valid()
    ensures r.Pass? <==> LoopOk(old(df.Value()), [Delta(cumulative, daily)])
    ensures r.Pass? ==> df.Value() == Apply(old(df.Value()), [Delta(cumulative, daily)])
  {
    SingleDeltaIndependent(cumulative, daily);
    r := ApplyInPlace(df, [Delta(cumulative, daily)]);
  }

  /** The sum of integer cells. */
  function IntSum(vs: seq<Value>): int
    requires forall i :: 0 <= i < |vs| ==> vs[i].Int?
  {
    if |vs| == 0 then 0 else IntSum(vs[..|vs| - 1]) + vs[|vs| - 1].i
  }

  /** Daily figures that are first differences add up to the last running
      total minus the first. */
  lemma {:induction false} Telescope(cum: seq<Value>, daily: seq<Value>)
    requires |cum| == |daily| >= 1
    requires forall p :: 0 <= p < |cum| ==> cum[p].Int?
    requires forall p :: 1 <= p < |daily| ==> daily[p] == Int(cum[p].i - cum[p - 1].i)
    ensures var d := daily[1..]; (forall i :: 0 <= i < |d| ==> d[i].Int?) && IntSum(d) == cum[|cum| - 1].i - cum[0].i
  {
    var n := |cum|;
    if n > 1 {
      Telescope(cum[..n - 1], daily[..n - 1]);
      assert daily[1..][..n - 2] == daily[..n - 1][1..];
    }
  }

  /** `deacumulate` on a series labelled 0..n-1 (as `transform` leaves it)
      whose running totals hold no text: `daily[i] = cum[i] - cum[i-1]` for
      1 <= i < n (NaN when either is NaN), row 0 is never assigned, and the
      running totals do not change. */
  lemma DeacumulateCells(t: Table<string>, cumulative: string, daily: string)
    requires WellFormed(t) && t.index == Range(|t.rows|) && |t.rows| >= 2 && cumulative != daily
    requires cumulative in t.columns && forall p :: 0 <= p < |t.rows| ==> !Cell(t, p, cumulative).Str?
    ensures LoopOk(t, [Delta(cumulative, daily)])
    ensures var u := Apply(t, [Delta(cumulative, daily)]);
      && daily in u.columns && cumulative in u.columns
      && (forall p :: 0 <= p < |t.rows| ==> Cell(u, p, cumulative) == Cell(t, p, cumulative))
      && Cell(u, 0, daily) == Original(t, 0, daily)
      && (forall p :: 1 <= p < |t.rows| ==>
            Sub(Cell(t, p, cumulative), Cell(t, p - 1, cumulative)) == Ok(Cell(u, p, daily)))
  {
    SingleDeltaIndependent(cumulative, daily);
    DeltaCells(t, [Delta(cumulative, daily)], 0);
  }

  /** The daily figures `deacumulate` writes add up to the last running total
      minus the first. */
  lemma DeacumulateTelescopes(t: Table<string>, cumulative: string, daily: string)
    requires WellFormed(t) && t.index == Range(|t.rows|) && |t.rows| >= 2 && cumulative != daily
    requires cumulative in t.columns && forall p :: 0 <= p < |t.rows| ==> Cell(t, p, cumulative).Int?
    ensures LoopOk(t, [Delta(cumulative, daily)])
    ensures var u := Apply(t, [Delta(cumulative, daily)]);
      daily in u.columns && var d := Column(u, daily)[1..];
      && (forall i :: 0 <= i < |d| ==> d[i].Int?)
      && IntSum(d) == Cell(t, |t.rows| - 1, cumulative).i - Cell(t, 0, cumulative).i
  {
    DeacumulateCells(t, cumulative, daily);
    ColumnTelescope(t, Apply(t, [Delta(cumulative, daily)]), cumulative, daily);
  }

  /** `Telescope` on the columns of two frames. */
  lemma ColumnTelescope(t: Table<string>, u: Table<string>, cumulative: string, daily: string)
    requires WellFormed(t) && WellFormed(u) && |u.rows| == |t.rows| >= 1
    requires cumulative in t.columns && daily in u.columns
    requires forall p :: 0 <= p < |t.rows| ==> Cell(t, p, cumulative).Int?
    requires forall p :: 1 <= p < |t.rows| ==>
      Cell(u, p, daily) == Int(Cell(t, p, cumulative).i - Cell(t, p - 1, cumulative).i)
    ensures var d := Column(u, daily)[1..];
      && (forall i :: 0 <= i < |d| ==> d[i].Int?)
      && IntSum(d) == Cell(t, |t.rows| - 1, cumulative).i - Cell(t, 0, cumulative).i
  {
    var cum, d := Column(t, cumulative), Column(u, daily);
    assert forall p :: 1 <= p < |d| ==> d[p] == Int(cum[p].i - cum[p - 1].i);
    Telescope(cum, d);
  }

  // ---------------------------------------------------------------------------
  // to_json: the melt and the sort (the JSON-stat encoding is not modelled)

  /** A Python list of column names, which `to_json` appends to. */
  class NameList {
    var names: seq<string>

    constructor (names: seq<string>)
      ensures this.names == names
    {
      this.names := names;
    }

    /** `names.append(name)`. */
    method Append(name: string)
      modifies this
      ensures names == old(names) + [name]
    {
      names := names + [name];
    }
  }

  /** The frame `to_json` hands to the encoder: `df.melt(id_vars=ids,
      value_vars=vars, var_name='Variables')`, sorted by the id columns and
      then `Variables`. */
  function Unpivoted(t: Table<string>, ids: seq<string>, vars: seq<string>): Result<Table<string>>
    requires WellFormed(t)
  {
    var long :- Melt(t, ids, vars, "Variables");
    SortValues(long, ids + ["Variables"])
  }

  /** The melt and the sort of `to_json(df, id_vars, value_vars)`: the
      caller's `id_vars` list gains `Variables` once the melt has succeeded,
      and the sort uses the extended list. */
  method ToJson(df: DataFrame<string>, idVars: NameList, valueVars: seq<string>) returns (r: Result<Table<string>>)
    requires df.Valid()
    modifies idVars
    ensures r == Unpivoted(df.Value(), old(idVars.names), valueVars)
    ensures idVars.names == old(idVars.names) + if r.Ok? then ["Variables"] else []
  {
    var long := Melt(df.Value(), idVars.names, valueVars, "Variables");
    if long.Err? {
      return Err(long.error);
    }
    idVars.Append("Variables");
    r := SortValues(long.value, idVars.names);
  }

  /** The unpivoted frame exists exactly when every named column does and the
      output names do not clash; it then has the id columns, `Variables` and
      `value`, one row per (value column, row), sorted by the id columns and
      `Variables`. */
  lemma UnpivotedShape(t: Table<string>, ids: seq<string>, vars: seq<string>)
    requires WellFormed(t)
    ensures Unpivoted(t, ids, vars).Ok? <==>
      (forall c :: c in ids + vars ==> c in t.columns) && Distinct(ids + ["Variables", "value"])
    ensures Unpivoted(t, ids, vars).Ok? ==> var u := Unpivoted(t, ids, vars).value; var keys := ids + ["Variables"];
      && u.columns == ids + ["Variables", "value"] && |u.rows| == |vars| * |t.rows|
      && Sortable(u, keys)
      && forall i, j :: 0 <= i < j < |u.rows| ==> !KeyLess(Key(u, j, keys), Key(u, i, keys))
  {
    var long := Melt(t, ids, vars, "Variables");
    if long.Ok? {
      assert forall c :: c in ids + ["Variables"] ==> c in long.value.columns;
      SortValuesOrdered(long.value, ids + ["Variables"]);
    }
  }

  /** The unpivoted rows are the melted rows, rearranged: as many of each. */
  lemma UnpivotedRows(t: Table<string>, ids: seq<string>, vars: seq<string>)
    requires WellFormed(t) && Unpivoted(t, ids, vars).Ok?
    ensures Melt(t, ids, vars, "Variables").Ok?
    ensures multiset(Unpivoted(t, ids, vars).value.rows) == multiset(Melt(t, ids, vars, "Variables").value.rows)
  {
    SortValuesPermutes(Melt(t, ids, vars, "Variables").value, ids + ["Variables"]);
  }

  /** Each unpivoted row names, right after its id cells, one of the value
      columns it came from. */
  lemma UnpivotedVariable(t: Table<string>, ids: seq<string>, vars: seq<string>, q: nat)
    requires WellFormed(t) && Unpivoted(t, ids, vars).Ok? && q < |Unpivoted(t, ids, vars).value.rows|
    ensures |Unpivoted(t, ids, vars).value.rows[q]| == |ids| + 2
    ensures exists k :: 0 <= k < |vars| && Unpivoted(t, ids, vars).value.rows[q][|ids|] == Str(vars[k])
  {
    var u := Unpivoted(t, ids, vars).value;
    UnpivotedRows(t, ids, vars);
    var long := Melt(t, ids, vars, "Variables").value;
    var q' := Rearranged(u.rows, long.rows, q);
    var k, i := MeltRowOrigin(t, ids, vars, "Variables", q');
    assert u.rows[q][|ids|] == Str(vars[k]);
  }
}
