/** The older script `etl.py`: Cantabria's row of each per-region file turned
    into a (fecha, figure) series by `normalize`, and the melt-and-sort of
    `to_json_stat` and of the national file. */
module Etl {
  import opened Wrappers
  import opened Text
  import opened Frames
  import opened Ordering
  import opened Reshape
  import opened EtlMain

  // ---------------------------------------------------------------------------
  // normalize

  /** The first two statements of `normalize`, which change the caller's
      frame: only Cantabria's rows, without `cod_ine`. */
  function CantabriaOnly(t: Table<string>): Result<Table<string>>
    requires WellFormed(t)
  {
    var kept :- FilterRows(t, "cod_ine", IsCantabria);
    DropColumn(kept, "cod_ine")
  }

  /** The renaming of the melted values. */
  function ValueName(variable: string): map<string, string> {
    map["value" := variable]
  }

  /** `normalize(df, variable)` as a value: the remaining rows melted on
      `CCAA` (every other column is a date, whose name goes to `fecha`), then
      without `CCAA` and with `value` renamed. `set_index('CCAA')`'s result is
      discarded, so it changes nothing. */
  function Normalized(t: Table<string>, variable: string): Result<Table<string>>
    requires WellFormed(t)
  {
    var kept :- CantabriaOnly(t);
    var long :- Melt(kept, ["CCAA"], Except(kept.columns, ["CCAA"]), "fecha");
    var noName :- DropColumn(long, "CCAA");
    RenameColumns(noName, ValueName(variable))
  }

  /** `normalize(df, variable)`: the filter and the drop change the caller's
      frame in place; `melt` makes a new frame, which the last two statements
      change. */
  method Normalize(df: DataFrame<string>, variable: string) returns (r: Result<DataFrame<string>>)
    requires df.Valid()
    modifies df
    ensures df.Valid()
    ensures CantabriaOnly(old(df.Value())).Ok? ==> df.Value() == CantabriaOnly(old(df.Value())).value
    ensures CantabriaOnly(old(df.Value())).Err? ==> df.Value() == old(df.Value())
    ensures r.Ok? ==> fresh(r.value) && r.value.Valid() && Normalized(old(df.Value()), variable) == Ok(r.value.Value())
    ensures r.Err? ==> Normalized(old(df.Value()), variable) == Err(r.error)
  {
    var o := df.DropRowsUnless("cod_ine", IsCantabria);
    if o.Fail? {
      return Err(o.error);
    }
    o := df.Drop("cod_ine");
    assert o.Pass?;  // the filter has just read the column
    var long := Melt(df.Value(), ["CCAA"], Except(df.columns, ["CCAA"]), "fecha");
    if long.Err? {
      return Err(long.error);
    }
    var melted := new DataFrame(long.value);
    o := melted.Drop("CCAA");
    assert o.Pass?;  // the melt has just made the column
    o := melted.Rename(ValueName(variable));
    if o.Fail? {
      return Err(o.error);
    }
    r := Ok(melted);
  }

  /** The date columns of a per-region file: all but `cod_ine` and `CCAA`. */
  function DateColumns(t: Table<string>): seq<string> {
    Except(t.columns, ["cod_ine", "CCAA"])
  }

  /** `normalize` succeeds exactly when the file has `cod_ine` and `CCAA` and
      the figure is not named `fecha`; its columns are then `fecha` and the
      figure. */
  lemma NormalizedColumns(t: Table<string>, variable: string)
    requires WellFormed(t)
    ensures Normalized(t, variable).Ok? <==> "cod_ine" in t.columns && "CCAA" in t.columns && variable != "fecha"
    ensures Normalized(t, variable).Ok? ==> Normalized(t, variable).value.columns == ["fecha", variable]
  {
    if "cod_ine" in t.columns {
      var kept := CantabriaOnly(t).value;
      assert "CCAA" in kept.columns <==> "CCAA" in t.columns;
      if "CCAA" in t.columns {
        var noName := MeltedColumns(kept);
        ValueRenamed(variable);
        assert Normalized(t, variable) == RenameColumns(noName, ValueName(variable));
      }
    }
  }

  /** Renaming `value` to the figure leaves `fecha` and the figure, which
      differ unless the figure is named `fecha`. */
  lemma ValueRenamed(variable: string)
    ensures RenamedAll(ValueName(variable), ["fecha", "value"]) == ["fecha", variable]
    ensures Distinct(["fecha", variable]) <==> variable != "fecha"
  {
    assert RenamedAll(ValueName(variable), ["fecha", "value"])[0] == "fecha";
    DistinctPair("fecha", variable);
  }

  /** Melting on `CCAA` into `fecha` and dropping `CCAA` leaves `fecha` and
      `value`. */
  lemma MeltedColumns(kept: Table<string>) returns (noName: Table<string>)
    requires WellFormed(kept) && "CCAA" in kept.columns
    ensures var long := Melt(kept, ["CCAA"], Except(kept.columns, ["CCAA"]), "fecha");
      && long.Ok? && DropColumn(long.value, "CCAA") == Ok(noName)
      && noName.columns == ["fecha", "value"]
  {
    var vars := Except(kept.columns, ["CCAA"]);
    assert forall c :: c in ["CCAA"] + vars ==> c in kept.columns;
    assert Distinct(["CCAA", "fecha", "value"]) by {
      assert Apart(["CCAA", "fecha", "value"], 0, 1);
      assert Apart(["CCAA", "fecha", "value"], 0, 2);
      assert Apart(["CCAA", "fecha", "value"], 1, 2);
    }
    var long := Melt(kept, ["CCAA"], vars, "fecha").value;
    assert Position(long.columns, "CCAA") == 0;
    noName := DropColumn(long, "CCAA").value;
  }

  /** `ps` are the positions of Cantabria's rows, and `u` holds, for date
      column `j` and kept row `i`, row `j·k + i` with that date under `fecha`
      and that row's figure for the date under the variable. */
  ghost predicate NormalizedAt(t: Table<string>, variable: string, u: Table<string>, ps: seq<nat>)
    requires WellFormed(t)
  {
    && "cod_ine" in t.columns && KeepsExactly(t, "cod_ine", IsCantabria, ps)
    && DatedRows(t, ps, DateColumns(t), u)
  }

  /** `u` has one row per date and kept row, as `DatedRow` says, for k = |ps|. */
  ghost predicate DatedRows(t: Table<string>, ps: seq<nat>, dates: seq<string>, u: Table<string>)
    requires WellFormed(t)
  {
    && InRange(t, ps)
    && |u.rows| == |dates| * |ps|
    && forall j, i :: 0 <= j < |dates| && 0 <= i < |ps| ==> DatedRow(t, ps, dates, u, j, i)
  }

  /** Row `j·k + i` of `u` pairs date `dates[j]` with row `ps[i]`'s cell in
      that date's column. */
  ghost predicate DatedRow(t: Table<string>, ps: seq<nat>, dates: seq<string>, u: Table<string>, j: nat, i: nat)
    requires WellFormed(t) && InRange(t, ps) && j < |dates| && i < |ps|
  {
    && j * |ps| + i < |u.rows|
    && dates[j] in t.columns
    && u.rows[j * |ps| + i] == [Str(dates[j]), Cell(t, ps[i], dates[j])]
  }

  /** `normalize` keeps exactly Cantabria's rows and melts them on the date
      columns: one row per (date column, kept row), grouped by date column in
      the file's order, each holding the date and the row's figure for it. */
  lemma NormalizedRows(t: Table<string>, variable: string)
    requires WellFormed(t) && Normalized(t, variable).Ok?
    ensures Normalized(t, variable).value.columns == ["fecha", variable]
    ensures exists ps: seq<nat> :: NormalizedAt(t, variable, Normalized(t, variable).value, ps)
  {
    NormalizedColumns(t, variable);
    var kept := FilterRows(t, "cod_ine", IsCantabria).value;
    var ps: seq<nat> :| KeepsExactly(t, "cod_ine", IsCantabria, ps) && kept == Select(t, ps);
    var noCode := CantabriaOnly(t).value;
    DatesAfterDrop(t, kept, noCode);
    var dates := DateColumns(t);
    var long := Melt(noCode, ["CCAA"], dates, "fecha").value;
    var noName := DropColumn(long, "CCAA").value;
    var u := Normalized(t, variable).value;
    assert RenameColumns(noName, ValueName(variable)) == Ok(u);
    MeltedAt(t, variable, ps, kept, noCode, dates, long, noName, u);
    assert NormalizedAt(t, variable, u, ps);
  }

  /** Dropping `cod_ine` leaves, besides `CCAA`, exactly the date columns. */
  lemma DatesAfterDrop(t: Table<string>, kept: Table<string>, noCode: Table<string>)
    requires WellFormed(t) && WellFormed(kept) && kept.columns == t.columns
    requires DropColumn(kept, "cod_ine") == Ok(noCode)
    ensures Except(noCode.columns, ["CCAA"]) == DateColumns(t)
  {
    var k := Position(t.columns, "cod_ine");
    ExceptWithout(t.columns, k, ["CCAA"]);
    assert [t.columns[k]] + ["CCAA"] == ["cod_ine", "CCAA"];
  }

  lemma MeltedAt(t: Table<string>, variable: string, ps: seq<nat>, kept: Table<string>, noCode: Table<string>,
                 dates: seq<string>, long: Table<string>, noName: Table<string>, u: Table<string>)
    requires WellFormed(t) && InRange(t, ps)
    requires kept == Select(t, ps) && WellFormed(kept) && DropColumn(kept, "cod_ine") == Ok(noCode)
    requires Melt(noCode, ["CCAA"], dates, "fecha") == Ok(long)
    requires DropColumn(long, "CCAA") == Ok(noName)
    requires RenameColumns(noName, ValueName(variable)) == Ok(u)
    ensures DatedRows(t, ps, dates, u)
  {
    assert |noCode.rows| == |ps|;
    forall j, i | 0 <= j < |dates| && 0 <= i < |ps|
      ensures DatedRow(t, ps, dates, u, j, i)
    {
      MeltedCell(noCode, dates, long, noName, u, variable, j, i);
      KeptCell(t, ps, kept, noCode, i, dates[j]);
    }
  }

  /** Renaming `value` to the figure leaves `fecha` alone. */
  lemma ValueNameKeepsFecha(variable: string)
    ensures Renamed(ValueName(variable), "fecha") == "fecha"
    ensures Renamed(ValueName(variable), "value") == variable
  {
    assert "fecha" != "value" by {
      assert "fecha"[0] != "value"[0];
    }
  }

  /** One row of the normalized frame, traced back through the rename, the
      drop and the melt. */
  lemma MeltedCell(noCode: Table<string>, dates: seq<string>, long: Table<string>, noName: Table<string>,
                   u: Table<string>, variable: string, j: nat, i: nat)
    requires WellFormed(noCode) && Melt(noCode, ["CCAA"], dates, "fecha") == Ok(long)
    requires DropColumn(long, "CCAA") == Ok(noName)
    requires RenameColumns(noName, ValueName(variable)) == Ok(u)
    requires j < |dates| && i < |noCode.rows|
    ensures j * |noCode.rows| + i < |u.rows| && dates[j] in noCode.columns
    ensures u.rows[j * |noCode.rows| + i] == [Str(dates[j]), Cell(noCode, i, dates[j])]
  {
    MeltRowAt(noCode, ["CCAA"], dates, "fecha", j, i);
    var q := j * |noCode.rows| + i;
    assert Position(long.columns, "CCAA") == 0;
    assert noName.rows[q] == Without(long.rows[q], 0);
  }

  /** A cell of a kept row, after `cod_ine` is dropped, is the original's. */
  lemma KeptCell(t: Table<string>, ps: seq<nat>, kept: Table<string>, noCode: Table<string>, i: nat, d: string)
    requires WellFormed(t) && InRange(t, ps)
    requires kept == Select(t, ps) && WellFormed(kept) && DropColumn(kept, "cod_ine") == Ok(noCode)
    requires i < |ps| && d in noCode.columns
    ensures d in t.columns && Cell(noCode, i, d) == Cell(t, ps[i], d)
  {
    assert Cell(noCode, i, d) == Cell(kept, i, d);
  }

  /** The last two steps of `normalize` move cells without changing them. */
  lemma RenamedCell(long: Table<string>, noName: Table<string>, u: Table<string>, variable: string, q: nat)
    requires WellFormed(long) && DropColumn(long, "CCAA") == Ok(noName) && noName.columns == ["fecha", "value"]
    requires RenameColumns(noName, ValueName(variable)) == Ok(u) && u.columns == ["fecha", variable]
    requires q < |long.rows|
    ensures q < |u.rows| && "fecha" in long.columns && "value" in long.columns
    ensures Cell(u, q, "fecha") == Cell(long, q, "fecha") && Cell(u, q, variable) == Cell(long, q, "value")
  {
    ValueNameKeepsFecha(variable);
    assert "fecha" in noName.columns && "value" in noName.columns;
    assert Cell(u, q, "fecha") == Cell(noName, q, "fecha");
    assert Cell(u, q, variable) == Cell(noName, q, "value");
  }

  // ---------------------------------------------------------------------------
  // to_json_stat and the national file

  /** The frame `to_json_stat(df, variable)` hands to the encoder. */
  function JsonStatFrame(t: Table<string>, variable: string): Result<Table<string>>
    requires WellFormed(t)
  {
    Unpivoted(t, ["fecha"], [variable])
  }

  /** Over a single value column the melt keeps the row count and adds a
      `Variables` column holding the variable's name in every row; the rows
      come out in date order. */
  lemma JsonStatFrameRows(t: Table<string>, variable: string)
    requires WellFormed(t) && "fecha" in t.columns && variable in t.columns
    ensures JsonStatFrame(t, variable).Ok?
    ensures var u := JsonStatFrame(t, variable).value;
      && u.columns == ["fecha", "Variables", "value"] && |u.rows| == |t.rows| && WellFormed(u)
      && (forall q :: 0 <= q < |u.rows| ==> u.rows[q][1] == Str(variable))
      && forall i, j :: 0 <= i < j < |u.rows| ==> !ValueLess(u.rows[j][0], u.rows[i][0])
  {
    DateVariablesApart(variable);
    UnpivotedShape(t, ["fecha"], [variable]);
    var u := JsonStatFrame(t, variable).value;
    forall q | 0 <= q < |u.rows|
      ensures u.rows[q][1] == Str(variable)
    {
      UnpivotedVariable(t, ["fecha"], [variable], q);
    }
    DateOrdered(t, [variable]);
  }

  /** The names of the unpivoted columns differ from each other and from
      any value column other than `fecha`, `Variables` and `value`. */
  lemma DateVariablesApart(variable: string)
    ensures variable != "fecha" ==> Distinct(["fecha", variable])
    ensures Distinct(["fecha", "Variables", "value"])
  {
    DistinctPair("fecha", variable);
    assert Distinct(["fecha", "Variables", "value"]) by {
      assert Apart(["fecha", "Variables", "value"], 0, 1);
      assert Apart(["fecha", "Variables", "value"], 0, 2);
      assert Apart(["fecha", "Variables", "value"], 1, 2);
    }
  }

  /** Unpivoting on `fecha` sorts by date, and then by variable name. */
  lemma DateOrdered(t: Table<string>, vars: seq<string>)
    requires WellFormed(t) && Unpivoted(t, ["fecha"], vars).Ok?
    ensures var u := Unpivoted(t, ["fecha"], vars).value;
      && WellFormed(u) && |u.columns| == 3
      && forall i, j :: 0 <= i < j < |u.rows| ==>
           && !ValueLess(u.rows[j][0], u.rows[i][0])
           && (Same(u.rows[i][0], u.rows[j][0]) ==> !ValueLess(u.rows[j][1], u.rows[i][1]))
  {
    UnpivotedShape(t, ["fecha"], vars);
    var u := Unpivoted(t, ["fecha"], vars).value;
    assert ["fecha"] + ["Variables"] == u.columns[..2];
    forall i, j | 0 <= i < j < |u.rows|
      ensures !ValueLess(u.rows[j][0], u.rows[i][0])
      ensures Same(u.rows[i][0], u.rows[j][0]) ==> !ValueLess(u.rows[j][1], u.rows[i][1])
    {
      LeadingPair(u, i, j);
    }
  }

  /** The national file's value columns, as `etl.py` melts them. */
  const NationalVariables: seq<string> := ["casos", "altas", "fallecimientos", "ingresos_uci", "hospitalizados"]

  /** The frame the national block of `etl.py` hands to the encoder. */
  function NationalFrame(t: Table<string>): Result<Table<string>>
    requires WellFormed(t)
  {
    Unpivoted(t, ["fecha"], NationalVariables)
  }

  /** The national melt has five rows per date row, each naming one of the
      five figures; sorted by `fecha` and then `Variables`, rows of the same
      date list their figures in string order (altas, casos, fallecimientos,
      hospitalizados, ingresos_uci). */
  lemma NationalFrameOrder(t: Table<string>)
    requires WellFormed(t) && "fecha" in t.columns && forall c :: c in NationalVariables ==> c in t.columns
    ensures NationalFrame(t).Ok?
    ensures var u := NationalFrame(t).value;
      && u.columns == ["fecha", "Variables", "value"] && |u.rows| == 5 * |t.rows| && WellFormed(u)
      && (forall q :: 0 <= q < |u.rows| ==> exists k :: 0 <= k < 5 && u.rows[q][1] == Str(NationalVariables[k]))
      && forall i, j :: 0 <= i < j < |u.rows| && Same(u.rows[i][0], u.rows[j][0]) ==>
           !ValueLess(u.rows[j][1], u.rows[i][1])
  {
    NationalNames(t);
    DateOrdered(t, NationalVariables);
  }

  /** Each row of the national melt names one of the five figures. */
  lemma NationalNames(t: Table<string>)
    requires WellFormed(t) && "fecha" in t.columns && forall c :: c in NationalVariables ==> c in t.columns
    ensures NationalFrame(t).Ok?
    ensures var u := NationalFrame(t).value;
      && u.columns == ["fecha", "Variables", "value"] && |u.rows| == 5 * |t.rows| && WellFormed(u)
      && forall q :: 0 <= q < |u.rows| ==> exists k :: 0 <= k < 5 && u.rows[q][1] == Str(NationalVariables[k])
  {
    NationalShape(t);
    NationalRowNames(t);
  }

  lemma NationalShape(t: Table<string>)
    requires WellFormed(t) && "fecha" in t.columns && forall c :: c in NationalVariables ==> c in t.columns
    ensures NationalFrame(t).Ok?
    ensures var u := NationalFrame(t).value;
      u.columns == ["fecha", "Variables", "value"] && |u.rows| == 5 * |t.rows| && WellFormed(u)
  {
    DateVariablesApart("fecha");
    UnpivotedShape(t, ["fecha"], NationalVariables);
  }

  lemma NationalRowNames(t: Table<string>)
    requires WellFormed(t) && NationalFrame(t).Ok?
    ensures var u := NationalFrame(t).value;
      forall q :: 0 <= q < |u.rows| ==> |u.rows[q]| == 3 && exists k :: 0 <= k < 5 && u.rows[q][1] == Str(NationalVariables[k])
  {
    var u := NationalFrame(t).value;
    forall q | 0 <= q < |u.rows|
      ensures |u.rows[q]| == 3 && exists k :: 0 <= k < 5 && u.rows[q][1] == Str(NationalVariables[k])
    {
      UnpivotedVariable(t, ["fecha"], NationalVariables, q);
    }
  }

  /** The string order of the five national variable names. */
  lemma NationalVariablesOrder()
    ensures Less("altas", "casos") && Less("casos", "fallecimientos")
    ensures Less("fallecimientos", "hospitalizados") && Less("hospitalizados", "ingresos_uci")
  {
  }
}
