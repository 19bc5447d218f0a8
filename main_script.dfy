/** The body of the daily ETL script between its helpers: the national block
    (dates moved back a day, cumulative columns renamed, five first
    differences), the variation series, the latest-date selections and the
    left merges. */
module MainScript {
  import opened Wrappers
  import opened Frames
  import opened Series
  import opened Delay
  import opened Dates
  import opened EtlMain

  // ---------------------------------------------------------------------------
  // The national block

  /** `delay_date(df)` as a value: None when some row raises. */
  function Delayed(t: Table<string>): Option<Table<string>>
    requires WellFormed(t)
  {
    if StepsOk(t, "fecha", |t.rows|, DelayCell) then Some(Rewritten(t, "fecha", |t.rows|, DelayCell)) else None
  }

  /** The national file's running totals, the names the script gives them and
      the daily columns it computes from them, position by position. */
  const NationalSources: seq<string> := ["casos_total", "altas", "fallecimientos", "ingresos_uci", "hospitalizados"]
  const NationalCumulatives: seq<string> :=
    ["casos-acumulado", "altas-acumulado", "fallecidos-acumulado", "uci-acumulado", "hospital-acumulado"]
  const NationalDailies: seq<string> := ["casos", "altas", "fallecidos", "uci", "hospital"]

  const NationalNames: map<string, string> := map[
    "casos_total" := "casos-acumulado",
    "altas" := "altas-acumulado",
    "fallecimientos" := "fallecidos-acumulado",
    "ingresos_uci" := "uci-acumulado",
    "hospitalizados" := "hospital-acumulado"]

  /** The five assignments of the loop body, in the order they run. */
  const NationalDeltas: seq<Update<string>> := [
    Delta("casos-acumulado", "casos"),
    Delta("altas-acumulado", "altas"),
    Delta("fallecidos-acumulado", "fallecidos"),
    Delta("uci-acumulado", "uci"),
    Delta("hospital-acumulado", "hospital")]

  lemma NationalDeltasAt(k: nat)
    requires k < 5
    ensures NationalDeltas[k] == Delta(NationalCumulatives[k], NationalDailies[k])
    ensures Renamed(NationalNames, NationalSources[k]) == NationalCumulatives[k]
    ensures |NationalCumulatives[k]| >= 13 && |NationalDailies[k]| <= 10
  {
  }

  /** No daily column is a running total, and the daily columns are distinct:
      the loop body's five assignments do not interfere. */
  lemma NationalDeltasIndependent()
    ensures Independent(NationalDeltas)
  {
    assert Targets(NationalDeltas) == NationalDailies;
    DistinctIntro(NationalDailies);
    forall k, j | 0 <= k < 5 && 0 <= j < 5
      ensures Unwritten(NationalDeltas, k, j)
    {
      NationalDeltasAt(k);
      NationalDeltasAt(j);
    }
  }

  /** `fecha` is neither renamed nor written by the loop. */
  lemma FechaUntouched()
    ensures "fecha" !in NationalNames && "fecha" !in Targets(NationalDeltas)
  {
    assert Targets(NationalDeltas) == NationalDailies;
  }

  /** The national frame after main.py:192-213: `delay_date`, the renaming,
      and the loop of five first differences; None when a step raises. The
      `set_index('fecha')` in between returns a new frame that is discarded,
      so it only raises KeyError when there is no `fecha`. */
  function NationalDaily(t: Table<string>): Option<Table<string>>
    requires WellFormed(t)
  {
    match Delayed(t)
    case None => None
    case Some(delayed) =>
      if SetIndexDiscarded(delayed, "fecha").Err? then None
      else match RenameColumns(delayed, NationalNames)
        case Err(_) => None
        case Ok(renamed) =>
          NationalDeltasIndependent();
          if LoopOk(renamed, NationalDeltas) then Some(Apply(renamed, NationalDeltas)) else None
  }

  method NationalBlock(df: DataFrame<string>) returns (r: Outcome)
    requires df.Valid()
    modifies df
    ensures df.Valid()
    ensures r.Pass? <==> NationalDaily(old(df.Value())).Some?
    ensures r.Pass? ==> df.Value() == NationalDaily(old(df.Value())).value
  {
    ghost var t := df.Value();
    r := DelayDate(df, "fecha");
    if r.Fail? {
      return;
    }
    r := df.SetIndex("fecha");
    if r.Fail? {
      return;
    }
    r := df.Rename(NationalNames);
    if r.Fail? {
      return;
    }
    NationalDeltasIndependent();
    r := ApplyInPlace(df, NationalDeltas);
  }

  /** Every row of the national frame holds the calendar day before the
      file's date: renaming and the loop leave `fecha` alone. */
  lemma NationalKeepsFecha(t: Table<string>, p: nat)
    requires WellFormed(t) && NationalDaily(t).Some? && p < |t.rows|
    ensures "fecha" in t.columns && "fecha" in NationalDaily(t).value.columns
    ensures DelayCell(Cell(t, p, "fecha")) == Ok(Cell(NationalDaily(t).value, p, "fecha"))
  {
    var delayed := Delayed(t).value;
    DelayDateResult(t, "fecha");
    var renamed := RenameColumns(delayed, NationalNames).value;
    FechaUntouched();
    assert Renamed(NationalNames, "fecha") == "fecha";
    assert Cell(renamed, p, "fecha") == Cell(delayed, p, "fecha");
  }

  /** What the national block expects of the file: rows labelled 0..n-1, a
      date in every row, names that stay distinct once renamed, every running
      total, and integer ones. A daily column's name may occur only as a
      running total that the renaming moves away, as `altas` does. */
  predicate NationalFile(t: Table<string>)
    requires WellFormed(t)
  {
    && t.index == Range(|t.rows|)
    && "fecha" in t.columns
    && (forall p :: 0 <= p < |t.rows| ==> DelayCell(Cell(t, p, "fecha")).Ok?)
    && Distinct(RenamedAll(NationalNames, t.columns))
    && (forall k :: 0 <= k < 5 ==> NationalSources[k] in t.columns)
    && (forall k :: 0 <= k < 5 ==> NationalDailies[k] !in t.columns || NationalDailies[k] in NationalNames)
    && forall k, p :: 0 <= k < 5 && 0 <= p < |t.rows| ==> Cell(t, p, NationalSources[k]).Int?
  }

  /** On such a file the block runs to the end; every row from the second on
      holds, in each daily column, the day's running total minus the day
      before's; the first row's daily cells are NaN; the running totals are
      the file's, under their new names. */
  lemma NationalDailyCells(t: Table<string>, k: nat)
    requires WellFormed(t) && |t.rows| >= 2 && NationalFile(t) && k < 5
    ensures NationalDaily(t).Some?
    ensures DailyColumn(t, NationalDaily(t).value, NationalSources[k], NationalCumulatives[k], NationalDailies[k])
  {
    var delayed := NationalDelayed(t);
    var renamed := NationalRenamed(t, delayed);
    NationalDeltasIndependent();
    DeltasRun(renamed, NationalDeltas);
    var u := NationalDailyIs(t, delayed, renamed);
    NationalDeltasAt(k);
    DeltaColumnCells(t, renamed, NationalDeltas, k, NationalSources[k], NationalCumulatives[k], NationalDailies[k]);
  }

  /** Column `daily` of `u` holds the first differences of column `src` of
      `t` from the second row on and NaN in the first; column `cum` of `u` is
      column `src` of `t`. */
  ghost predicate DailyColumn(t: Table<string>, u: Table<string>, src: string, cum: string, daily: string)
    requires WellFormed(t) && WellFormed(u) && |u.rows| == |t.rows| && src in t.columns
  {
    && daily in u.columns && cum in u.columns
    && (forall p :: 0 <= p < |t.rows| ==> Cell(t, p, src).Int?)
    && (forall p :: 1 <= p < |t.rows| ==> Cell(u, p, daily) == Int(Cell(t, p, src).i - Cell(t, p - 1, src).i))
    && (|t.rows| > 0 ==> Cell(u, 0, daily) == Missing)
    && (forall p :: 0 <= p < |t.rows| ==> Cell(u, p, cum) == Cell(t, p, src))
  }

  lemma NationalDailyIs(t: Table<string>, delayed: Table<string>, renamed: Table<string>) returns (u: Table<string>)
    requires WellFormed(t) && Delayed(t) == Some(delayed) && "fecha" in delayed.columns
    requires RenameColumns(delayed, NationalNames) == Ok(renamed)
    requires Independent(NationalDeltas) && LoopOk(renamed, NationalDeltas)
    ensures NationalDaily(t) == Some(u) && u == Apply(renamed, NationalDeltas)
  {
    u := Apply(renamed, NationalDeltas);
  }

  /** One column of a loop of first differences, read back on the frame
      before an earlier step that kept the running total's cells. */
  lemma DeltaColumnCells(t: Table<string>, renamed: Table<string>, ups: seq<Update<string>>, k: nat,
                         src: string, cum: string, daily: string)
    requires WellFormed(t) && WellFormed(renamed) && |renamed.rows| == |t.rows| >= 2
    requires renamed.index == Range(|renamed.rows|) && Independent(ups) && IntegerDeltas(renamed, ups)
    requires k < |ups| && ups[k] == Delta(cum, daily) && daily !in renamed.columns && src in t.columns
    requires forall p :: 0 <= p < |t.rows| ==> Cell(renamed, p, cum) == Cell(t, p, src)
    ensures LoopOk(renamed, ups)
    ensures DailyColumn(t, Apply(renamed, ups), src, cum, daily)
  {
    DeltaCells(renamed, ups, k);
    DeltaColumnDiffs(t, renamed, ups, k, src, cum, daily);
    var u := Apply(renamed, ups);
    assert Original(renamed, 0, daily) == Missing;
    assert forall p :: 0 <= p < |t.rows| ==> Cell(t, p, src).Int? by {
      assert ups[k].cumulative == cum;
    }
  }

  lemma DeltaColumnDiffs(t: Table<string>, renamed: Table<string>, ups: seq<Update<string>>, k: nat,
                         src: string, cum: string, daily: string)
    requires WellFormed(t) && WellFormed(renamed) && |renamed.rows| == |t.rows| >= 2
    requires renamed.index == Range(|renamed.rows|) && Independent(ups) && IntegerDeltas(renamed, ups)
    requires k < |ups| && ups[k] == Delta(cum, daily) && src in t.columns
    requires forall p :: 0 <= p < |t.rows| ==> Cell(renamed, p, cum) == Cell(t, p, src)
    ensures LoopOk(renamed, ups) && daily in Apply(renamed, ups).columns
    ensures forall p :: 1 <= p < |t.rows| ==>
      Cell(Apply(renamed, ups), p, daily) == Int(Cell(t, p, src).i - Cell(t, p - 1, src).i)
  {
    DeltasRun(renamed, ups);
    DeltaColumn(renamed, ups, k);
    var u := Apply(renamed, ups);
    assert ups[k].cumulative == cum && ups[k].daily == daily;
    forall p | 1 <= p < |t.rows|
      ensures Cell(u, p, daily) == Int(Cell(t, p, src).i - Cell(t, p - 1, src).i)
    {
      var a, b := Cell(renamed, p, cum), Cell(renamed, p - 1, cum);
      assert a == Cell(t, p, src) && b == Cell(t, p - 1, src);
      assert a.Int? && b.Int?;
      assert Sub(a, b) == Ok(Int(a.i - b.i));
    }
  }

  /** `delay_date` runs on such a file and changes only `fecha`. */
  lemma NationalDelayed(t: Table<string>) returns (delayed: Table<string>)
    requires WellFormed(t) && |t.rows| >= 2 && NationalFile(t)
    ensures Delayed(t) == Some(delayed)
    ensures delayed.columns == t.columns && delayed.index == t.index
    ensures forall p, d :: 0 <= p < |t.rows| && d in t.columns && d != "fecha" ==> Cell(delayed, p, d) == Cell(t, p, d)
  {
    StepsOkMeaning(t, "fecha", DelayCell);
    delayed := Delayed(t).value;
    DelayDateResult(t, "fecha");
  }

  /** After the renaming the running totals are under their new names, with
      the file's integers, and no daily column exists yet. */
  lemma NationalRenamed(t: Table<string>, delayed: Table<string>) returns (renamed: Table<string>)
    requires WellFormed(t) && |t.rows| >= 2 && NationalFile(t) && WellFormed(delayed)
    requires delayed.columns == t.columns && delayed.index == t.index && |delayed.rows| == |t.rows|
    requires forall p, d :: 0 <= p < |t.rows| && d in t.columns && d != "fecha" ==> Cell(delayed, p, d) == Cell(t, p, d)
    ensures RenameColumns(delayed, NationalNames) == Ok(renamed)
    ensures renamed.index == Range(|renamed.rows|) && |renamed.rows| >= 2
    ensures IntegerDeltas(renamed, NationalDeltas)
    ensures forall k :: 0 <= k < 5 ==> NationalCumulatives[k] in renamed.columns
    ensures forall k, p :: 0 <= k < 5 && 0 <= p < |t.rows| ==>
      Cell(renamed, p, NationalCumulatives[k]) == Cell(t, p, NationalSources[k])
    ensures forall k :: 0 <= k < 5 ==> NationalDailies[k] !in renamed.columns
  {
    renamed := RenameColumns(delayed, NationalNames).value;
    forall k | 0 <= k < 5
      ensures NationalCumulatives[k] in renamed.columns
    {
      RenamedSource(t, delayed, renamed, k, 0);
    }
    forall k, p | 0 <= k < 5 && 0 <= p < |t.rows|
      ensures Cell(renamed, p, NationalCumulatives[k]) == Cell(t, p, NationalSources[k])
    {
      RenamedSource(t, delayed, renamed, k, p);
    }


    forall k | 0 <= k < 5
      ensures NationalDeltas[k].Delta? && NationalDeltas[k].cumulative in renamed.columns
      ensures forall p :: 0 <= p < |renamed.rows| ==> Cell(renamed, p, NationalDeltas[k].cumulative).Int?
    {
      NationalDeltasAt(k);
    }
    forall k | 0 <= k < 5
      ensures NationalDailies[k] !in renamed.columns
    {
      NationalDeltasAt(k);
      forall i | 0 <= i < |t.columns|
        ensures renamed.columns[i] != NationalDailies[k]
      {
        RenamedLong(t.columns[i]);
        assert t.columns[i] !in NationalNames ==> t.columns[i] != NationalDailies[k];
      }
    }
  }

  lemma RenamedSource(t: Table<string>, delayed: Table<string>, renamed: Table<string>, k: nat, p: nat)
    requires WellFormed(t) && NationalFile(t) && WellFormed(delayed) && k < 5 && p < |t.rows|
    requires delayed.columns == t.columns && |delayed.rows| == |t.rows|
    requires forall p, d :: 0 <= p < |t.rows| && d in t.columns && d != "fecha" ==> Cell(delayed, p, d) == Cell(t, p, d)
    requires RenameColumns(delayed, NationalNames) == Ok(renamed)
    ensures NationalCumulatives[k] in renamed.columns && Cell(renamed, p, NationalCumulatives[k]) == Cell(t, p, NationalSources[k])
  {
    NationalDeltasAt(k);
    assert NationalSources[k] != "fecha";
    assert NationalSources[k] in delayed.columns;
  }

  /** The daily figures of the national block add up to the last running
      total minus the first. */
  lemma NationalTelescopes(t: Table<string>, k: nat)
    requires WellFormed(t) && |t.rows| >= 2 && NationalFile(t) && k < 5
    ensures NationalDaily(t).Some? && NationalDailies[k] in NationalDaily(t).value.columns
    ensures var d := Column(NationalDaily(t).value, NationalDailies[k])[1..];
      && (forall i :: 0 <= i < |d| ==> d[i].Int?)
      && IntSum(d) == Cell(t, |t.rows| - 1, NationalSources[k]).i - Cell(t, 0, NationalSources[k]).i
  {
    NationalDailyCells(t, k);
    DailyColumnTelescopes(t, NationalDaily(t).value, NationalSources[k], NationalCumulatives[k], NationalDailies[k]);
  }

  /** Two days of a national file: the running totals under the file's names,
      and `altas` among them. */
  const NationalSample: Table<string> := Table(
    ["fecha", "casos_total", "altas", "fallecimientos", "ingresos_uci", "hospitalizados"],
    [0, 1],
    [[Str("2020-03-01"), Int(10), Int(2), Int(1), Int(3), Int(5)],
     [Str("2020-05-01"), Int(14), Int(3), Int(1), Int(4), Int(7)]])

  /** The sample meets what the national block expects, and its second row's
      daily cases are 14 - 10. */
  lemma NationalSampleDaily()
    ensures WellFormed(NationalSample) && NationalFile(NationalSample)
    ensures NationalDaily(NationalSample).Some? && "casos" in NationalDaily(NationalSample).value.columns
    ensures Cell(NationalDaily(NationalSample).value, 1, "casos") == Int(4)
  {
    SampleIsNationalFile();
    NationalDailyCells(NationalSample, 0);
    SampleCases();
  }

  lemma SampleIsNationalFile()
    ensures WellFormed(NationalSample) && NationalFile(NationalSample)
  {
    SampleWellFormed();
    SampleDates();
    SampleRenamed();
    SampleTotals();
  }

  lemma SampleCases()
    ensures WellFormed(NationalSample) && "casos_total" in NationalSample.columns
    ensures Cell(NationalSample, 1, "casos_total") == Int(14) && Cell(NationalSample, 0, "casos_total") == Int(10)
  {
    SampleWellFormed();
    assert Position(NationalSample.columns, "casos_total") == 1;
  }

  lemma SampleWellFormed()
    ensures WellFormed(NationalSample)
  {
    var t := NationalSample;
    DistinctIntro(t.columns);
    DistinctIntro(t.index);
  }

  lemma SampleDates()
    ensures WellFormed(NationalSample) && "fecha" in NationalSample.columns
    ensures forall p :: 0 <= p < 2 ==> DelayCell(Cell(NationalSample, p, "fecha")).Ok?
  {
    SampleWellFormed();
    assert Position(NationalSample.columns, "fecha") == 0;
    forall p | 0 <= p < 2
      ensures DelayCell(Cell(NationalSample, p, "fecha")).Ok?
    {
      if p == 0 {
        assert Cell(NationalSample, 0, "fecha") == Str("2020-03-01");
        DelayLeapFebruary();
      } else {
        assert Cell(NationalSample, 1, "fecha") == Str("2020-05-01");
        DelayThirtyDayMonth();
      }
    }
  }

  lemma SampleRenamed()
    ensures Distinct(RenamedAll(NationalNames, NationalSample.columns))
  {
    var r := RenamedAll(NationalNames, NationalSample.columns);
    assert r == ["fecha", "casos-acumulado", "altas-acumulado", "fallecidos-acumulado", "uci-acumulado", "hospital-acumulado"];
    DistinctIntro(r);
  }

  lemma SampleTotals()
    ensures WellFormed(NationalSample)
    ensures forall k :: 0 <= k < 5 ==> NationalSources[k] in NationalSample.columns
    ensures forall k, p :: 0 <= k < 5 && 0 <= p < 2 ==> Cell(NationalSample, p, NationalSources[k]).Int?
  {
    SampleWellFormed();
    forall k, p | 0 <= k < 5 && 0 <= p < 2
      ensures NationalSources[k] in NationalSample.columns && Cell(NationalSample, p, NationalSources[k]).Int?
    {
      assert NationalSample.columns[k + 1] == NationalSources[k];
      PositionOfDistinct(NationalSample.columns, k + 1);
    }
  }

  lemma DailyColumnTelescopes(t: Table<string>, u: Table<string>, src: string, cum: string, daily: string)
    requires WellFormed(t) && WellFormed(u) && |u.rows| == |t.rows| >= 1 && src in t.columns
    requires DailyColumn(t, u, src, cum, daily)
    ensures daily in u.columns && var d := Column(u, daily)[1..];
      && (forall i :: 0 <= i < |d| ==> d[i].Int?)
      && IntSum(d) == Cell(t, |t.rows| - 1, src).i - Cell(t, 0, src).i
  {
    ColumnTelescope(t, u, src, daily);
  }

  // ---------------------------------------------------------------------------
  // `espana` (main.py:519-521): the same object as `nacional`

  /** What main.py:519-520 leaves in `espana`. `data[nacional]` is the frame
      the national block has already moved back a day in place, so the
      second `delay_date` moves every date back once more. */
  function EspanaDelayedTwice(t: Table<string>): Option<Table<string>>
    requires WellFormed(t)
  {
    match NationalDaily(t)
    case None => None
    case Some(nacional) => Delayed(nacional)
  }

  /** main.py:192-213 and 519-520 as written: `espana` and `nacional` are
      one DataFrame, and it goes through `delay_date` twice. */
  method EspanaAsWritten(nacional: DataFrame<string>) returns (r: Outcome, espana: DataFrame<string>)
    requires nacional.Valid()
    modifies nacional
    ensures espana == nacional && espana.Valid()
    ensures r.Pass? <==> EspanaDelayedTwice(old(nacional.Value())).Some?
    ensures r.Pass? ==> espana.Value() == EspanaDelayedTwice(old(nacional.Value())).value
  {
    espana := nacional;
    r := NationalBlock(nacional);
    if r.Fail? {
      return;
    }
    r := DelayDate(espana, "fecha");
  }

  /** Both the national frame and Cantabria's frames hold, in every row, the
      date before the file's; `espana` as written holds the date two days
      before, so the merge on `fecha` at main.py:522 pairs each national
      figure with Cantabria's figure of the following day. */
  lemma EspanaTwoDaysBack(t: Table<string>, p: nat)
    requires WellFormed(t) && EspanaDelayedTwice(t).Some? && p < |t.rows|
    ensures var u := EspanaDelayedTwice(t).value;
      && "fecha" in t.columns && "fecha" in u.columns
      && Cell(t, p, "fecha").Str? && Cell(u, p, "fecha").Str?
      && Parse(Cell(t, p, "fecha").s).Some? && Parse(Cell(u, p, "fecha").s).Some?
      && Ordinal(Parse(Cell(u, p, "fecha").s).value) == Ordinal(Parse(Cell(t, p, "fecha").s).value) - 2
  {
    NationalKeepsFecha(t, p);
    var nacional := NationalDaily(t).value;
    DelayDateResult(nacional, "fecha");
  }

  /** The national frame the comparison should use: moved back one day, as
      Cantabria's `casos` is by main.py:368. */
  lemma EspanaOneDayBack(t: Table<string>, p: nat)
    requires WellFormed(t) && NationalDaily(t).Some? && p < |t.rows|
    ensures var u := NationalDaily(t).value;
      && "fecha" in t.columns && "fecha" in u.columns
      && Cell(t, p, "fecha").Str? && Cell(u, p, "fecha").Str?
      && Parse(Cell(t, p, "fecha").s).Some? && Parse(Cell(u, p, "fecha").s).Some?
      && Ordinal(Parse(Cell(u, p, "fecha").s).value) == Ordinal(Parse(Cell(t, p, "fecha").s).value) - 1
  {
    NationalKeepsFecha(t, p);
  }

  /** Every new name ends in `-acumulado`, so it is longer than any daily
      column's name. */
  lemma RenamedLong(c: string)
    ensures c in NationalNames ==> |NationalNames[c]| >= 13
  {
  }

  // ---------------------------------------------------------------------------
  // The daily variation (main.py:237-248 and 393-405)

  /** The loop body: `variacion` from `casos` at the label before. */
  const VariationStep: seq<Update<string>> := [Variation("casos", "variacion")]

  lemma VariationIndependent()
    ensures Independent(VariationStep)
  {
    assert Targets(VariationStep) == ["variacion"];
    assert Unwritten(VariationStep, 0, 0);
  }

  /** What the loop leaves at one label: with a positive figure the day
      before, the percentage from which the day's figure is recovered; NaN
      otherwise. */
  predicate VariationAt(prev: Value, cur: Value, v: Value)
    requires IsNumber(prev) && IsNumber(cur)
  {
    if AsReal(prev) > 0.0 then v.Real? && AsReal(cur) == AsReal(prev) + AsReal(prev) * v.r / 100.0
    else v == Missing
  }

  /** The frame a variation series starts from, once copied: the relabelling
      `reset_index(drop=True)`, the loop over the labels 1..n-1, and the drop
      of `casos`; None when a step raises. */
  function Variacion(t: Table<string>): Option<Table<string>>
    requires WellFormed(t)
  {
    var reset := ResetIndex(t, true).value;
    VariationIndependent();
    if !LoopOk(reset, VariationStep) then None
    else
      match DropColumn(Apply(reset, VariationStep), "casos")
      case Err(_) => None
      case Ok(u) => Some(u)
  }

  method VariacionInPlace(tasa: DataFrame<string>) returns (r: Outcome)
    requires tasa.Valid()
    modifies tasa
    ensures tasa.Valid()
    ensures r.Pass? <==> Variacion(old(tasa.Value())).Some?
    ensures r.Pass? ==> tasa.Value() == Variacion(old(tasa.Value())).value
  {
    var o := ResetIndexInPlace(tasa, true);
    assert o.Pass?;
    VariationIndependent();
    r := ApplyInPlace(tasa, VariationStep);
    if r.Fail? {
      return;
    }
    r := tasa.Drop("casos");
  }

  /** The loop on a frame labelled 0..n-1 (n >= 2) whose `casos` cells are
      numbers: it runs to the end, leaves row 0 NaN, and writes at every
      later row the variation from the row before. */
  lemma VariationRates(t: Table<string>)
    requires WellFormed(t) && t.index == Range(|t.rows|) && |t.rows| >= 2
    requires "casos" in t.columns && "variacion" !in t.columns
    requires forall p :: 0 <= p < |t.rows| ==> IsNumber(Cell(t, p, "casos"))
    ensures Independent(VariationStep) && LoopOk(t, VariationStep)
    ensures RateColumn(t, Apply(t, VariationStep), 0)
  {
    VariationIndependent();
    forall L, k | 1 <= L < |t.rows| && 0 <= k < 1
      ensures StepValue(t, VariationStep[k], L).Ok?
    {
      VariationStepAt(t, L);
    }
    var u := Apply(t, VariationStep);
    assert Targets(VariationStep) == ["variacion"];
    assert Cell(u, 0, "variacion") == Final(t, VariationStep, 0, 0);
    forall p | 1 <= p < |t.rows|
      ensures VariationAt(Cell(t, p - 1, "casos"), Cell(t, p, "casos"), Cell(u, p, "variacion"))
    {
      assert Cell(u, p, "variacion") == Final(t, VariationStep, p, 0);
      VariationStepAt(t, p);
    }
  }

  /** Column `variacion` of `u` is NaN in row 0 and holds, in every later
      row i, the variation of `casos` of `t` from row b+i-1 to row b+i (the
      first b rows of `t` having been dropped before the series). */
  ghost predicate RateColumn(t: Table<string>, u: Table<string>, b: nat)
    requires WellFormed(t) && WellFormed(u) && |u.rows| >= 1 && |u.rows| + b == |t.rows| && "casos" in t.columns
    requires forall p :: 0 <= p < |t.rows| ==> IsNumber(Cell(t, p, "casos"))
  {
    && "variacion" in u.columns
    && Cell(u, 0, "variacion") == Missing
    && forall i :: 1 <= i < |u.rows| ==> VariationAt(Cell(t, b + i - 1, "casos"), Cell(t, b + i, "casos"), Cell(u, i, "variacion"))
  }

  /** One step of the loop: the division happens only when the divisor is
      positive. */
  lemma VariationStepAt(t: Table<string>, L: nat)
    requires WellFormed(t) && t.index == Range(|t.rows|) && 1 <= L < |t.rows| && "casos" in t.columns
    requires IsNumber(Cell(t, L - 1, "casos")) && IsNumber(Cell(t, L, "casos"))
    ensures StepValue(t, Variation("casos", "variacion"), L).Ok?
    ensures VariationAt(Cell(t, L - 1, "casos"), Cell(t, L, "casos"), StepValue(t, Variation("casos", "variacion"), L).value)
  {
    LocOnRange(t, L - 1, "casos");
    LocOnRange(t, L, "casos");
    assert L in t.index by {
      assert t.index[L] == L;
    }
  }

  /** The whole series on a frame with numeric `casos`: rows relabelled
      0..n-1, `casos` replaced by `variacion`, the other columns as they
      were. */
  lemma VariacionCells(t: Table<string>) returns (u: Table<string>)
    requires WellFormed(t) && |t.rows| >= 2 && "casos" in t.columns && "variacion" !in t.columns
    requires forall p :: 0 <= p < |t.rows| ==> IsNumber(Cell(t, p, "casos"))
    ensures Variacion(t) == Some(u)
    ensures WellFormed(u) && u.index == Range(|t.rows|) && |u.rows| == |t.rows|
    ensures forall d :: d in u.columns <==> (d in t.columns && d != "casos") || d == "variacion"
    ensures forall p, d :: 0 <= p < |t.rows| && d in t.columns && d != "casos" ==> Cell(u, p, d) == Cell(t, p, d)
    ensures RateColumn(t, u, 0)
  {
    var reset := ResetIndex(t, true).value;
    VariationRates(reset);
    var a := Apply(reset, VariationStep);
    assert Targets(VariationStep) == ["variacion"];
    u := DropColumn(a, "casos").value;
    assert Variacion(t) == Some(u);
    RateColumnMoves(t, reset, a, u, 0);
  }

  /** `RateColumn` read across steps that move no cell of `casos` or
      `variacion`, other than dropping the first b rows of `t`. */
  lemma RateColumnMoves(t: Table<string>, s: Table<string>, a: Table<string>, u: Table<string>, b: nat)
    requires WellFormed(t) && WellFormed(s) && WellFormed(a) && WellFormed(u)
    requires |s.rows| >= 1 && |s.rows| == |a.rows| == |u.rows| && |t.rows| == |s.rows| + b
    requires "casos" in t.columns && "casos" in s.columns
    requires forall p :: 0 <= p < |t.rows| ==> IsNumber(Cell(t, p, "casos"))
    requires forall p :: 0 <= p < |s.rows| ==> Cell(s, p, "casos") == Cell(t, b + p, "casos")
    requires RateColumn(s, a, 0)
    requires "variacion" in u.columns
    requires forall p :: 0 <= p < |u.rows| ==> Cell(u, p, "variacion") == Cell(a, p, "variacion")
    ensures RateColumn(t, u, b)
  {
    forall i | 1 <= i < |u.rows|
      ensures VariationAt(Cell(t, b + i - 1, "casos"), Cell(t, b + i, "casos"), Cell(u, i, "variacion"))
    {
      assert Cell(s, i - 1, "casos") == Cell(t, b + i - 1, "casos");
    }
  }

  /** `casos_nacional_tasa` (main.py:237-248): the copy of `fecha` and
      `casos`, then the series. */
  function NationalVariation(acumulado: Table<string>): Option<Table<string>>
    requires WellFormed(acumulado)
  {
    match SelectColumns(acumulado, ["fecha", "casos"])
    case Err(_) => None
    case Ok(tasa) => Variacion(tasa)
  }

  /** `casos_tasa` (main.py:393-405): the copy, the drop of the rows labelled
      below 9, then the series. */
  function CantabriaVariation(acumulado: Table<string>): Option<Table<string>>
    requires WellFormed(acumulado)
  {
    match SelectColumns(acumulado, ["fecha", "casos"])
    case Err(_) => None
    case Ok(tasa) => Variacion(DropLabelsBelow(tasa, 9))
  }

  method NationalVariationSeries(acumulado: DataFrame<string>) returns (r: Result<DataFrame<string>>)
    requires acumulado.Valid()
    ensures r.Ok? <==> NationalVariation(acumulado.Value()).Some?
    ensures r.Ok? ==> fresh(r.value) && r.value.Valid() && r.value.Value() == NationalVariation(acumulado.Value()).value
  {
    var copy := SelectColumns(acumulado.Value(), ["fecha", "casos"]);
    if copy.Err? {
      return Err(copy.error);
    }
    var tasa := new DataFrame(copy.value);
    var o := VariacionInPlace(tasa);
    if o.Fail? {
      return Err(o.error);
    }
    r := Ok(tasa);
  }

  method CantabriaVariationSeries(acumulado: DataFrame<string>) returns (r: Result<DataFrame<string>>)
    requires acumulado.Valid()
    ensures r.Ok? <==> CantabriaVariation(acumulado.Value()).Some?
    ensures r.Ok? ==> fresh(r.value) && r.value.Valid() && r.value.Value() == CantabriaVariation(acumulado.Value()).value
  {
    var copy := SelectColumns(acumulado.Value(), ["fecha", "casos"]);
    if copy.Err? {
      return Err(copy.error);
    }
    var tasa := new DataFrame(copy.value);
    tasa.DropLabelsBelowInPlace(9);
    var o := VariacionInPlace(tasa);
    if o.Fail? {
      return Err(o.error);
    }
    r := Ok(tasa);
  }

  /** The national series: one row per day of `nacional_acumulado`, relabelled
      0..n-1, holding `fecha` and the variation of `casos`. */
  lemma NationalVariationCells(acumulado: Table<string>) returns (u: Table<string>)
    requires WellFormed(acumulado) && |acumulado.rows| >= 2
    requires "fecha" in acumulado.columns && "casos" in acumulado.columns
    requires forall p :: 0 <= p < |acumulado.rows| ==> IsNumber(Cell(acumulado, p, "casos"))
    ensures NationalVariation(acumulado) == Some(u)
    ensures VariationSeries(acumulado, u, 0)
  {
    var tasa := CopyFechaCasos(acumulado);
    u := VariacionCells(tasa);
    NationalMoves(acumulado, tasa, u);
  }

  /** The series of the copy read back on the days of `acumulado`. */
  lemma NationalMoves(acumulado: Table<string>, tasa: Table<string>, u: Table<string>)
    requires WellFormed(acumulado) && |acumulado.rows| >= 2 && "fecha" in acumulado.columns && "casos" in acumulado.columns
    requires forall p :: 0 <= p < |acumulado.rows| ==> IsNumber(Cell(acumulado, p, "casos"))
    requires WellFormed(tasa) && tasa.columns == ["fecha", "casos"] && |tasa.rows| == |acumulado.rows|
    requires forall p, d :: 0 <= p < |acumulado.rows| && d in tasa.columns ==> Cell(tasa, p, d) == Cell(acumulado, p, d)
    requires WellFormed(u) && u.index == Range(|tasa.rows|) && |u.rows| == |tasa.rows|
    requires forall d :: d in u.columns <==> (d in tasa.columns && d != "casos") || d == "variacion"
    requires forall p, d :: 0 <= p < |tasa.rows| && d in tasa.columns && d != "casos" ==> Cell(u, p, d) == Cell(tasa, p, d)
    requires forall p :: 0 <= p < |tasa.rows| ==> IsNumber(Cell(tasa, p, "casos"))
    requires RateColumn(tasa, u, 0)
    ensures VariationSeries(acumulado, u, 0)
  {
    forall d
      ensures d in u.columns <==> d == "fecha" || d == "variacion"
    {
      assert d in tasa.columns <==> d == "fecha" || d == "casos";
    }
    forall i | 0 <= i < |u.rows|
      ensures Cell(u, i, "fecha") == Cell(acumulado, i, "fecha")
    {
      assert "fecha" in tasa.columns && Cell(u, i, "fecha") == Cell(tasa, i, "fecha");
    }
    RateColumnMoves(acumulado, tasa, u, u, 0);
  }

  /** `u` is the series of `acumulado` once its first b days are dropped:
      one row per remaining day, labelled 0.., holding that day's `fecha`
      and the variation of `casos` from the day before. */
  ghost predicate VariationSeries(acumulado: Table<string>, u: Table<string>, b: nat)
    requires WellFormed(acumulado) && b < |acumulado.rows| && "fecha" in acumulado.columns && "casos" in acumulado.columns
    requires forall p :: 0 <= p < |acumulado.rows| ==> IsNumber(Cell(acumulado, p, "casos"))
  {
    && WellFormed(u) && |u.rows| == |acumulado.rows| - b && u.index == Range(|u.rows|)
    && (forall d :: d in u.columns <==> d == "fecha" || d == "variacion")
    && (forall i :: 0 <= i < |u.rows| ==> Cell(u, i, "fecha") == Cell(acumulado, b + i, "fecha"))
    && RateColumn(acumulado, u, b)
  }

  /** `df[['fecha', 'casos']]`. */
  lemma CopyFechaCasos(t: Table<string>) returns (tasa: Table<string>)
    requires WellFormed(t) && "fecha" in t.columns && "casos" in t.columns
    ensures SelectColumns(t, ["fecha", "casos"]) == Ok(tasa)
    ensures tasa.columns == ["fecha", "casos"] && tasa.index == t.index && |tasa.rows| == |t.rows|
    ensures "variacion" !in tasa.columns
    ensures forall p, d :: 0 <= p < |t.rows| && d in tasa.columns ==> Cell(tasa, p, d) == Cell(t, p, d)
  {
    DistinctPair("fecha", "casos");
    tasa := SelectColumns(t, ["fecha", "casos"]).value;
  }

  /** The Cantabria series: the first nine days of `cantabria_acumulado`
      (labels 0..8) are dropped, so row i of the result is day i+9, and its
      variation is taken from day i+8. */
  lemma CantabriaVariationCells(acumulado: Table<string>) returns (u: Table<string>)
    requires WellFormed(acumulado) && acumulado.index == Range(|acumulado.rows|) && |acumulado.rows| >= 11
    requires "fecha" in acumulado.columns && "casos" in acumulado.columns
    requires forall p :: 0 <= p < |acumulado.rows| ==> IsNumber(Cell(acumulado, p, "casos"))
    ensures CantabriaVariation(acumulado) == Some(u)
    ensures VariationSeries(acumulado, u, 9)
  {
    var later := CantabriaLater(acumulado);
    u := VariacionCells(later);
    CantabriaMoves(acumulado, later, u);
  }

  /** The series of `later` read back on the days of `acumulado`. */
  lemma CantabriaMoves(acumulado: Table<string>, later: Table<string>, u: Table<string>)
    requires WellFormed(acumulado) && |acumulado.rows| >= 11 && "fecha" in acumulado.columns && "casos" in acumulado.columns
    requires forall p :: 0 <= p < |acumulado.rows| ==> IsNumber(Cell(acumulado, p, "casos"))
    requires WellFormed(later) && |later.rows| == |acumulado.rows| - 9 && "fecha" in later.columns && "casos" in later.columns
    requires forall i :: 0 <= i < |later.rows| ==> Cell(later, i, "fecha") == Cell(acumulado, 9 + i, "fecha")
    requires forall p :: 0 <= p < |later.rows| ==> Cell(later, p, "casos") == Cell(acumulado, 9 + p, "casos")
    requires WellFormed(u) && |u.rows| == |later.rows| && "fecha" in u.columns
    requires forall p :: 0 <= p < |later.rows| ==> Cell(u, p, "fecha") == Cell(later, p, "fecha")
    requires forall p :: 0 <= p < |later.rows| ==> IsNumber(Cell(later, p, "casos"))
    requires RateColumn(later, u, 0)
    ensures forall i :: 0 <= i < |u.rows| ==> Cell(u, i, "fecha") == Cell(acumulado, 9 + i, "fecha")
    ensures RateColumn(acumulado, u, 9)
  {
    RateColumnMoves(acumulado, later, u, u, 9);
  }

  /** The frame the Cantabria series runs on. */
  lemma CantabriaLater(acumulado: Table<string>) returns (later: Table<string>)
    requires WellFormed(acumulado) && acumulado.index == Range(|acumulado.rows|) && |acumulado.rows| >= 11
    requires "fecha" in acumulado.columns && "casos" in acumulado.columns
    requires forall p :: 0 <= p < |acumulado.rows| ==> IsNumber(Cell(acumulado, p, "casos"))
    ensures WellFormed(later) && later.columns == ["fecha", "casos"] && |later.rows| == |acumulado.rows| - 9
    ensures forall d :: d in later.columns <==> d == "fecha" || d == "casos"
    ensures "variacion" !in later.columns
    ensures forall i :: 0 <= i < |later.rows| ==> Cell(later, i, "fecha") == Cell(acumulado, 9 + i, "fecha")
    ensures forall p :: 0 <= p < |later.rows| ==> Cell(later, p, "casos") == Cell(acumulado, 9 + p, "casos")
    ensures forall p :: 0 <= p < |later.rows| ==> IsNumber(Cell(later, p, "casos"))
    ensures CantabriaVariation(acumulado) == Variacion(later)
  {
    var tasa := CopyFechaCasos(acumulado);
    later := LaterDays(acumulado, tasa);
    assert "casos" in later.columns && "fecha" in later.columns;
  }

  /** `tasa.drop(labels=range(9))` on the copy: row i is day i+9. */
  lemma LaterDays(acumulado: Table<string>, tasa: Table<string>) returns (later: Table<string>)
    requires WellFormed(acumulado) && acumulado.index == Range(|acumulado.rows|) && |acumulado.rows| >= 11
    requires WellFormed(tasa) && tasa.columns == ["fecha", "casos"] && tasa.index == acumulado.index
    requires |tasa.rows| == |acumulado.rows| && "fecha" in acumulado.columns && "casos" in acumulado.columns
    requires forall p, d :: 0 <= p < |acumulado.rows| && d in tasa.columns ==> Cell(tasa, p, d) == Cell(acumulado, p, d)
    ensures later == DropLabelsBelow(tasa, 9)
    ensures WellFormed(later) && later.columns == ["fecha", "casos"] && |later.rows| == |acumulado.rows| - 9
    ensures forall d :: d in later.columns <==> d == "fecha" || d == "casos"
    ensures forall i, d :: 0 <= i < |later.rows| && d in later.columns ==> Cell(later, i, d) == Cell(acumulado, i + 9, d)
  {
    later := DropLabelsBelow(tasa, 9);
    assert later.rows == tasa.rows[9..] && later.columns == tasa.columns;
    forall i, d | 0 <= i < |later.rows| && d in later.columns
      ensures Cell(later, i, d) == Cell(acumulado, i + 9, d)
    {
      assert later.rows[i] == tasa.rows[i + 9];
      assert Cell(later, i, d) == Cell(tasa, i + 9, d);
    }
  }
}
