/** The latest-date selections of the daily script: `df.fecha.max()`, then the
    rows whose `fecha` is that maximum, without the `fecha` column
    (the regional cases of the last day and the national figures by age and
    sex). */
module Latest {
  import opened Wrappers
  import opened Text
  import opened Frames
  import opened Ordering
  import opened Dates
  import opened EtlMain

  // ---------------------------------------------------------------------------
  // Series.max()

  /** Some cell is text. */
  predicate HasText(vs: seq<Value>) {
    exists i :: 0 <= i < |vs| && vs[i].Str?
  }

  /** Some cell is a number. */
  predicate HasNumber(vs: seq<Value>) {
    exists i :: 0 <= i < |vs| && IsNumber(vs[i])
  }

  /** One comparison of the reduction: the larger of the maximum so far and
      the next cell, NaN skipped; text against a number raises. */
  function Larger(m: Value, v: Value): Result<Value> {
    if v.Missing? then Ok(m)
    else if m.Missing? then Ok(v)
    else if m.Str? != v.Str? then Err(TypeError)
    else if ValueLess(m, v) then Ok(v)
    else Ok(m)
  }

  /** `Series.max()` with NaN skipped: NaN for a column without a value,
      TypeError for a column mixing text and numbers. */
  function MaxCell(vs: seq<Value>): Result<Value> {
    if |vs| == 0 then Ok(Missing)
    else
      match MaxCell(vs[..|vs| - 1])
      case Err(e) => Err(e)
      case Ok(m) => Larger(m, vs[|vs| - 1])
  }

  /** The maximum fails exactly on mixed text and numbers, is NaN exactly
      when every cell is NaN, and is otherwise one of the cells, below none
      of the others. */
  lemma {:induction false} MaxCellIsMax(vs: seq<Value>)
    ensures MaxCell(vs).Err? <==> HasText(vs) && HasNumber(vs)
    ensures MaxCell(vs) == Ok(Missing) <==> forall i :: 0 <= i < |vs| ==> vs[i].Missing?
    ensures MaxCell(vs).Ok? && !MaxCell(vs).value.Missing? ==>
      && (exists k :: 0 <= k < |vs| && vs[k] == MaxCell(vs).value)
      && forall i :: 0 <= i < |vs| && !vs[i].Missing? ==> !ValueLess(MaxCell(vs).value, vs[i])
  {
    if |vs| > 0 {
      var init, v := vs[..|vs| - 1], vs[|vs| - 1];
      MaxCellIsMax(init);
      assert forall i :: 0 <= i < |init| ==> vs[i] == init[i];
      assert HasText(vs) <==> HasText(init) || v.Str? by {
        if HasText(vs) && !v.Str? {
          var i :| 0 <= i < |vs| && vs[i].Str?;
          assert init[i].Str?;
        }
      }
      assert HasNumber(vs) <==> HasNumber(init) || IsNumber(v) by {
        if HasNumber(vs) && !IsNumber(v) {
          var i :| 0 <= i < |vs| && IsNumber(vs[i]);
          assert IsNumber(init[i]);
        }
      }
      if MaxCell(init).Ok? {
        var m := MaxCell(init).value;
        if !m.Missing? {
          var k :| 0 <= k < |init| && init[k] == m;
          assert m.Str? ==> HasText(init);
          assert IsNumber(m) ==> HasNumber(init);
        } else {
          assert forall i :: 0 <= i < |init| ==> init[i].Missing?;
        }
        ValueLessTotal(v, v);
        if v.Missing? {
          assert MaxCell(vs) == Ok(m);
        } else if m.Missing? {
          assert MaxCell(vs) == Ok(v);
          assert vs[|vs| - 1] == v;
        } else if m.Str? == v.Str? && ValueLess(m, v) {
          assert MaxCell(vs) == Ok(v);
          assert vs[|vs| - 1] == v;
          forall i | 0 <= i < |vs| && !vs[i].Missing?
            ensures !ValueLess(v, vs[i])
          {
            if i < |init| && ValueLess(v, vs[i]) {
              ValueLessTransitive(m, v, vs[i]);
            }
          }
        } else if m.Str? == v.Str? {
          assert MaxCell(vs) == Ok(m);
          forall i | 0 <= i < |vs| && !vs[i].Missing?
            ensures !ValueLess(m, vs[i])
          {
            if i < |init| {
              assert vs[i] == init[i];
            }
          }
        }
      }
    }
  }

  /** On `fecha` columns of rendered dates the maximum is the latest day. */
  lemma {:induction false} LatestIsLastDay(vs: seq<Value>, days: seq<Date>)
    requires |vs| == |days| > 0
    requires forall i :: 0 <= i < |vs| ==> Valid(days[i]) && vs[i] == Str(Render(days[i]))
    ensures MaxCell(vs).Ok?
    ensures exists k :: 0 <= k < |vs| && MaxCell(vs).value == vs[k] && forall i :: 0 <= i < |vs| ==> !Before(days[k], days[i])
  {
    MaxCellIsMax(vs);
    assert !IsNumber(vs[0]) && !vs[0].Missing?;
    assert !HasNumber(vs);
    var k :| 0 <= k < |vs| && vs[k] == MaxCell(vs).value;
    forall i | 0 <= i < |vs|
      ensures !Before(days[k], days[i])
    {
      RenderOrder(days[k], days[i]);
    }
  }

  // ---------------------------------------------------------------------------
  // The rows of the latest date

  /** `df.c != last` is false: the cell is the maximum. NaN is never equal
      to anything, the maximum included. */
  function AtLatest(last: Value): Value -> bool {
    (v: Value) => !v.Missing? && Same(v, last)
  }

  /** `df.drop(df[df.c != last].index)` and `df.drop(c, axis=1)`. */
  function KeepLatest(t: Table<string>, c: string, last: Value): Result<Table<string>>
    requires WellFormed(t)
  {
    var kept :- FilterRows(t, c, AtLatest(last));
    DropColumn(kept, c)
  }

  /** The rows `KeepLatest` keeps, relabelled nowhere: `ps` are the positions
      of the rows whose cell in `c` is `last`, and row j of `u` is row
      `ps[j]` of `t` without column `c`. */
  ghost predicate LatestAt(t: Table<string>, c: string, last: Value, u: Table<string>, ps: seq<nat>)
    requires WellFormed(t) && WellFormed(u) && c in t.columns
  {
    && KeepsExactly(t, c, AtLatest(last), ps) && |ps| == |u.rows|
    && (forall d :: d in u.columns <==> d in t.columns && d != c)
    && (forall j :: 0 <= j < |ps| ==> u.index[j] == t.index[ps[j]])
    && forall j, d :: 0 <= j < |ps| && d in u.columns ==> Cell(u, j, d) == Cell(t, ps[j], d)
  }

  lemma KeepLatestRows(t: Table<string>, c: string, last: Value)
    requires WellFormed(t)
    ensures KeepLatest(t, c, last).Ok? <==> c in t.columns
    ensures KeepLatest(t, c, last).Ok? ==> exists ps :: LatestAt(t, c, last, KeepLatest(t, c, last).value, ps)
  {
    if c in t.columns {
      var kept := FilterRows(t, c, AtLatest(last)).value;
      var ps: seq<nat> :| KeepsExactly(t, c, AtLatest(last), ps) && kept == Select(t, ps);
      var u := DropColumn(kept, c).value;
      assert u == KeepLatest(t, c, last).value;
      forall j, d | 0 <= j < |ps| && d in u.columns
        ensures Cell(u, j, d) == Cell(t, ps[j], d)
      {
        assert Cell(u, j, d) == Cell(kept, j, d);
      }
      assert LatestAt(t, c, last, u, ps);
    }
  }

  /** With `last` the column's maximum, the rows kept are the rows of the
      latest date: each is before no other row, and there is at least one
      whenever the column holds a value. */
  lemma LatestRowsAreLatest(t: Table<string>, c: string, ps: seq<nat>)
    requires WellFormed(t) && c in t.columns && MaxCell(Column(t, c)).Ok?
    requires KeepsExactly(t, c, AtLatest(MaxCell(Column(t, c)).value), ps)
    ensures forall j, q :: 0 <= j < |ps| && 0 <= q < |t.rows| && !Cell(t, q, c).Missing? ==>
      !ValueLess(Cell(t, ps[j], c), Cell(t, q, c))
    ensures (exists q :: 0 <= q < |t.rows| && !Cell(t, q, c).Missing?) ==> |ps| > 0
  {
    var col := Column(t, c);
    var last := MaxCell(col).value;
    MaxCellIsMax(col);
    forall j, q | 0 <= j < |ps| && 0 <= q < |t.rows| && !Cell(t, q, c).Missing?
      ensures !ValueLess(Cell(t, ps[j], c), Cell(t, q, c))
    {
      var v := Cell(t, ps[j], c);
      assert AtLatest(last)(v);
      assert col[q] == Cell(t, q, c);
      ValueLessRespectsSame(v, last, Cell(t, q, c));
    }
    if exists q :: 0 <= q < |t.rows| && !Cell(t, q, c).Missing? {
      var q :| 0 <= q < |t.rows| && !Cell(t, q, c).Missing?;
      assert col[q] == Cell(t, q, c);
      var k :| 0 <= k < |col| && col[k] == last;
      SameIsEquivalence(last, last, last);
      assert AtLatest(last)(Cell(t, k, c));
      assert k in ps;
    }
  }

  // ---------------------------------------------------------------------------
  // The regional cases of the last day (main.py:183-186)

  /** `casos_ccaa_last`: the maximum of `todos_ccaa.fecha`, then the copy of
      `fecha`, `ccaa` and `casos` cut to that date, without `fecha`. */
  function CcaaLatest(todos: Table<string>): Result<Table<string>>
    requires WellFormed(todos)
  {
    if "fecha" !in todos.columns then Err(KeyError)
    else
      var last :- MaxCell(Column(todos, "fecha"));
      var copy :- SelectColumns(todos, ["fecha", "ccaa", "casos"]);
      KeepLatest(copy, "fecha", last)
  }

  method CasosCcaaLast(todos: DataFrame<string>) returns (r: Result<DataFrame<string>>)
    requires todos.Valid()
    ensures r.Ok? <==> CcaaLatest(todos.Value()).Ok?
    ensures r.Ok? ==> fresh(r.value) && r.value.Valid() && r.value.Value() == CcaaLatest(todos.Value()).value
    ensures r.Err? ==> CcaaLatest(todos.Value()) == Err(r.error)
  {
    var t := todos.Value();
    if "fecha" !in t.columns {
      return Err(KeyError);
    }
    var last := MaxCell(Column(t, "fecha"));
    if last.Err? {
      return Err(last.error);
    }
    var copy := SelectColumns(t, ["fecha", "ccaa", "casos"]);
    if copy.Err? {
      return Err(copy.error);
    }
    var df := new DataFrame(copy.value);
    var o := df.DropRowsUnless("fecha", AtLatest(last.value));
    assert o.Pass?;
    o := df.Drop("fecha");
    assert o.Pass?;
    r := Ok(df);
  }

  /** The result holds `ccaa` and `casos` of exactly the rows whose `fecha`
      is the maximum of the column, in their order; by `LatestRowsAreLatest`
      these are the rows of the latest date. */
  lemma CcaaLatestRows(todos: Table<string>) returns (ps: seq<nat>)
    requires WellFormed(todos) && CcaaLatest(todos).Ok?
    ensures "fecha" in todos.columns && MaxCell(Column(todos, "fecha")).Ok?
    ensures KeepsExactly(todos, "fecha", AtLatest(MaxCell(Column(todos, "fecha")).value), ps)
    ensures var u := CcaaLatest(todos).value;
      && |ps| == |u.rows|
      && (forall d :: d in u.columns <==> d == "ccaa" || d == "casos")
      && forall j, d :: 0 <= j < |ps| && d in u.columns ==> d in todos.columns && Cell(u, j, d) == Cell(todos, ps[j], d)
  {
    var last := MaxCell(Column(todos, "fecha")).value;
    var copy := CopyFechaCcaaCasos(todos);
    var u := CcaaLatest(todos).value;
    assert u == KeepLatest(copy, "fecha", last).value;
    KeepLatestRows(copy, "fecha", last);
    ps :| LatestAt(copy, "fecha", last, u, ps);
    forall j, d | 0 <= j < |ps| && d in u.columns
      ensures d in todos.columns && Cell(u, j, d) == Cell(todos, ps[j], d)
    {
      assert Cell(u, j, d) == Cell(copy, ps[j], d);
    }
  }

  /** `todos_ccaa[['fecha', 'ccaa', 'casos']].copy()`. */
  lemma CopyFechaCcaaCasos(todos: Table<string>) returns (copy: Table<string>)
    requires WellFormed(todos) && CcaaLatest(todos).Ok?
    ensures SelectColumns(todos, ["fecha", "ccaa", "casos"]) == Ok(copy)
    ensures forall d :: d in copy.columns <==> d == "fecha" || d == "ccaa" || d == "casos"
    ensures |copy.rows| == |todos.rows|
    ensures forall p, d :: 0 <= p < |todos.rows| && d in copy.columns ==> d in todos.columns && Cell(copy, p, d) == Cell(todos, p, d)
    ensures Column(copy, "fecha") == Column(todos, "fecha")
  {
    copy := SelectColumns(todos, ["fecha", "ccaa", "casos"]).value;
  }

  // ---------------------------------------------------------------------------
  // The national figures by age and sex (main.py:337-347)

  /** `nacional_edad.sexo == 'ambos'` is false: the row is for one sex. */
  predicate NotBoth(v: Value) {
    v != Str("ambos")
  }

  /** The renaming applied once `fecha` is gone. */
  const EdadNames: map<string, string> :=
    map["casos_confirmados" := "casos", "hospitalizados" := "hospital", "ingresos_uci" := "uci"]

  /** Without the all-ages and both-sexes rows: `drop` of the rows where
      `rango_edad == 'Total'`, then of those where `sexo == 'ambos'`. */
  function ByAgeAndSex(t: Table<string>): Result<Table<string>>
    requires WellFormed(t)
  {
    var ages :- FilterRows(t, "rango_edad", NotTotal);
    FilterRows(ages, "sexo", NotBoth)
  }

  /** The whole block as a value: the age and sex rows of the latest date,
      without `fecha`, with the three figures renamed. */
  function NacionalEdad(t: Table<string>): Result<Table<string>>
    requires WellFormed(t)
  {
    var bySex :- ByAgeAndSex(t);
    if "fecha" !in bySex.columns then Err(AttributeError)
    else
      var last :- MaxCell(Column(bySex, "fecha"));
      var latest :- KeepLatest(bySex, "fecha", last);
      RenameColumns(latest, EdadNames)
  }

  method NacionalEdadInPlace(df: DataFrame<string>) returns (r: Outcome)
    requires df.Valid()
    modifies df
    ensures df.Valid()
    ensures r.Pass? <==> NacionalEdad(old(df.Value())).Ok?
    ensures r.Pass? ==> df.Value() == NacionalEdad(old(df.Value())).value
    ensures r.Fail? ==> NacionalEdad(old(df.Value())) == Err(r.error)
  {
    r := df.DropRowsUnless("rango_edad", NotTotal);
    if r.Fail? {
      return;
    }
    r := df.DropRowsUnless("sexo", NotBoth);
    if r.Fail? {
      return;
    }
    if "fecha" !in df.columns {
      return Fail(AttributeError);
    }
    var last := MaxCell(Column(df.Value(), "fecha"));
    if last.Err? {
      return Fail(last.error);
    }
    r := df.DropRowsUnless("fecha", AtLatest(last.value));
    assert r.Pass?;
    r := df.Drop("fecha");
    assert r.Pass?;
    r := df.Rename(EdadNames);
  }

  /** The rows left by the two filters are the rows of one age band and one
      sex, and the result holds, renamed, every other column of exactly those
      of them whose `fecha` is the latest among them. */
  lemma NacionalEdadRows(t: Table<string>) returns (bySex: Table<string>, ps: seq<nat>)
    requires WellFormed(t) && NacionalEdad(t).Ok?
    ensures ByAgeAndSex(t) == Ok(bySex) && WellFormed(bySex)
    ensures "rango_edad" in bySex.columns && "sexo" in bySex.columns && "fecha" in bySex.columns
    ensures forall p :: 0 <= p < |bySex.rows| ==> NotTotal(Cell(bySex, p, "rango_edad")) && NotBoth(Cell(bySex, p, "sexo"))
    ensures MaxCell(Column(bySex, "fecha")).Ok?
    ensures KeepsExactly(bySex, "fecha", AtLatest(MaxCell(Column(bySex, "fecha")).value), ps)
    ensures var u := NacionalEdad(t).value;
      && |ps| == |u.rows|
      && forall j, c :: 0 <= j < |ps| && c in bySex.columns && c != "fecha" ==>
           Renamed(EdadNames, c) in u.columns && Cell(u, j, Renamed(EdadNames, c)) == Cell(bySex, ps[j], c)
  {
    bySex := FilterSkips(t);
    var last := MaxCell(Column(bySex, "fecha")).value;
    var latest := KeepLatest(bySex, "fecha", last).value;
    KeepLatestRows(bySex, "fecha", last);
    ps :| LatestAt(bySex, "fecha", last, latest, ps);
    var u := NacionalEdad(t).value;
    assert u == RenameColumns(latest, EdadNames).value;
    forall j, c | 0 <= j < |ps| && c in bySex.columns && c != "fecha"
      ensures Renamed(EdadNames, c) in u.columns && Cell(u, j, Renamed(EdadNames, c)) == Cell(bySex, ps[j], c)
    {
      assert Cell(latest, j, c) == Cell(bySex, ps[j], c);
    }
  }

  /** Both filters' rows, read back on the second table. */
  lemma FilterSkips(t: Table<string>) returns (bySex: Table<string>)
    requires WellFormed(t) && ByAgeAndSex(t).Ok?
    ensures ByAgeAndSex(t) == Ok(bySex) && WellFormed(bySex)
    ensures "rango_edad" in bySex.columns && "sexo" in bySex.columns
    ensures forall p :: 0 <= p < |bySex.rows| ==> NotTotal(Cell(bySex, p, "rango_edad")) && NotBoth(Cell(bySex, p, "sexo"))
  {
    var ages := FilterRows(t, "rango_edad", NotTotal).value;
    var qs: seq<nat> :| KeepsExactly(t, "rango_edad", NotTotal, qs) && ages == Select(t, qs);
    bySex := FilterRows(ages, "sexo", NotBoth).value;
    var bs: seq<nat> :| KeepsExactly(ages, "sexo", NotBoth, bs) && bySex == Select(ages, bs);
    forall p | 0 <= p < |bySex.rows|
      ensures NotTotal(Cell(bySex, p, "rango_edad")) && NotBoth(Cell(bySex, p, "sexo"))
    {
      assert Cell(bySex, p, "rango_edad") == Cell(ages, bs[p], "rango_edad") == Cell(t, qs[bs[p]], "rango_edad");
    }
  }
}
