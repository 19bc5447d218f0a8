/** The chains of left merges of the daily script: the five regional series
    joined on `fecha` and `ccaa`, the four Cantabrian running totals joined on
    `fecha`, and the national against the Cantabrian cases. */
module Joins {
  import opened Wrappers
  import opened Frames
  import opened Ordering
  import opened Merge
  import MainScript

  /** The cell in column `c` of the first right row whose keys match `key`;
      NaN when none does. */
  function Lookup(right: Table<string>, keys: seq<string>, key: seq<Value>, c: string): Value
    requires Sortable(right, keys) && c in right.columns
  {
    var ms := Matches(right, keys, key, |right.rows|);
    if |ms| == 0 then Missing else Cell(right, ms[0], c)
  }

  /** With unique right keys, the lookup finds the one matching row's cell,
      and NaN exactly when no row matches. */
  lemma LookupFinds(right: Table<string>, keys: seq<string>, key: seq<Value>, c: string)
    requires Sortable(right, keys) && c in right.columns && UniqueKeys(right, keys)
    ensures forall q :: 0 <= q < |right.rows| && KeySame(key, Key(right, q, keys)) ==>
      Lookup(right, keys, key, c) == Cell(right, q, c)
    ensures (forall q :: 0 <= q < |right.rows| ==> !KeySame(key, Key(right, q, keys))) ==>
      Lookup(right, keys, key, c) == Missing
  {
    var ms := Matches(right, keys, key, |right.rows|);
    AtMostOneMatch(right, keys, key);
    forall q | 0 <= q < |right.rows| && KeySame(key, Key(right, q, keys))
      ensures Lookup(right, keys, key, c) == Cell(right, q, c)
    {
      assert q in ms;
    }
  }

  /** The merged table's columns when nothing clashes: the left ones, then the
      right non-key ones, all under their own names. */
  lemma UnclashedColumns(left: seq<string>, keys: seq<string>, rest: seq<string>)
    requires forall c :: c in rest ==> c !in left
    ensures MergedColumns(left, keys, rest) == left + rest
  {
    var cols := MergedColumns(left, keys, rest);
    forall k | 0 <= k < |left|
      ensures cols[k] == left[k]
    {
      assert left[k] !in rest;
    }
  }

  /** Two distinct sequences with no element in common join into a distinct
      one. */
  lemma DistinctJoin<T>(a: seq<T>, b: seq<T>)
    requires Distinct(a) && Distinct(b) && forall x :: x in b ==> x !in a
    ensures Distinct(a + b)
  {
    forall i, j | 0 <= i < j < |a| + |b|
      ensures Apart(a + b, i, j)
    {
      if j < |a| {
        DistinctAt(a, i, j);
      } else if i >= |a| {
        DistinctAt(b, i - |a|, j - |a|);
      } else {
        assert b[j - |a|] in b;
      }
    }
  }

  /** One merge of a frame with a right frame that brings new columns only:
      it succeeds, and the new columns follow the old ones. */
  lemma MergeStep(t: Table<string>, right: Table<string>, keys: seq<string>) returns (m: Table<string>)
    requires Sortable(t, keys) && Sortable(right, keys) && UniqueKeys(right, keys)
    requires forall c :: c in right.columns && c !in keys ==> c !in t.columns
    ensures LeftMerge(t, right, keys) == Ok(m) && Sortable(m, keys)
    ensures m.columns == t.columns + Except(right.columns, keys)
    ensures |m.rows| == |t.rows| && m.index == Range(|t.rows|)
    ensures forall p, c :: 0 <= p < |t.rows| && c in t.columns ==> Cell(m, p, c) == Cell(t, p, c)
    ensures forall p, c :: 0 <= p < |t.rows| && c in right.columns && c !in keys ==>
      Cell(m, p, c) == Lookup(right, keys, Key(t, p, keys), c)
  {
    var rest := Except(right.columns, keys);
    UnclashedColumns(t.columns, keys, rest);
    DistinctJoin(t.columns, rest);
    m := LeftMerge(t, right, keys).value;
    LeftMergeUnique(t, right, keys);
    forall p, c | 0 <= p < |t.rows| && c in t.columns
      ensures Cell(m, p, c) == Cell(t, p, c)
    {
      assert LeftName(c, keys, rest) == c;
    }
    forall p, c | 0 <= p < |t.rows| && c in right.columns && c !in keys
      ensures Cell(m, p, c) == Lookup(right, keys, Key(t, p, keys), c)
    {
      assert c in rest && RightName(c, t.columns) == c;
    }
  }

  /** `left.merge(r1, ...).merge(r2, ...)...`: the chain of left merges. */
  function MergeAll(t: Table<string>, rights: seq<Table<string>>, keys: seq<string>): (r: Result<Table<string>>)
    requires WellFormed(t) && forall i :: 0 <= i < |rights| ==> WellFormed(rights[i])
    ensures r.Ok? ==> WellFormed(r.value)
    decreases |rights|
  {
    if |rights| == 0 then Ok(t)
    else
      var m :- LeftMerge(t, rights[0], keys);
      MergeAll(m, rights[1..], keys)
  }

  /** Each right frame brings columns of its own: no non-key column of one is
      already in the left frame or in another right frame. */
  ghost predicate NoClash(cols: seq<string>, rights: seq<Table<string>>, keys: seq<string>) {
    forall i, c :: 0 <= i < |rights| && c in rights[i].columns && c !in keys ==>
      && c !in cols
      && forall j :: 0 <= j < |rights| && j != i ==> c !in rights[j].columns
  }

  /** Every right frame holds the key columns, and no two of its rows share
      a key. */
  ghost predicate Lookups(rights: seq<Table<string>>, keys: seq<string>) {
    forall i :: 0 <= i < |rights| ==> Sortable(rights[i], keys) && UniqueKeys(rights[i], keys)
  }

  /** The non-key columns the right frames bring, in merge order. */
  function Added(rights: seq<Table<string>>, keys: seq<string>): seq<string>
    decreases |rights|
  {
    if |rights| == 0 then [] else Except(rights[0].columns, keys) + Added(rights[1..], keys)
  }

  /** `u` holds the left rows of `t` in order with their cells, and every
      non-key column of each right frame filled by key lookup. */
  ghost predicate KeepsLeft(t: Table<string>, rights: seq<Table<string>>, keys: seq<string>, u: Table<string>)
    requires Sortable(t, keys) && Lookups(rights, keys)
  {
    && WellFormed(u) && |u.rows| == |t.rows| && u.columns == t.columns + Added(rights, keys)
    && (forall c :: c in t.columns ==> c in u.columns)
    && (forall i, c :: 0 <= i < |rights| && c in rights[i].columns && c !in keys ==> c in u.columns)
    && (forall p, c :: 0 <= p < |t.rows| && c in t.columns ==> Cell(u, p, c) == Cell(t, p, c))
    && forall i, p, c :: 0 <= i < |rights| && 0 <= p < |t.rows| && c in rights[i].columns && c !in keys ==>
         Cell(u, p, c) == Lookup(rights[i], keys, Key(t, p, keys), c)
  }

  /** With unique keys on every right frame and no clashing names, the chain
      keeps exactly the left rows in left order with their cells, and adds
      every right column filled by key lookup. */
  lemma {:induction false} MergeAllKeepsLeft(t: Table<string>, rights: seq<Table<string>>, keys: seq<string>) returns (u: Table<string>)
    requires Sortable(t, keys) && Lookups(rights, keys) && NoClash(t.columns, rights, keys)
    ensures MergeAll(t, rights, keys) == Ok(u) && KeepsLeft(t, rights, keys, u)
    decreases |rights|
  {
    if |rights| == 0 {
      u := t;
    } else {
      var m := MergeStep(t, rights[0], keys);
      var later := rights[1..];
      LaterStillApart(t, m, rights, keys);
      u := MergeAllKeepsLeft(m, later, keys);
      KeepsLeftThrough(t, m, rights, keys, u);
    }
  }

  lemma LaterStillApart(t: Table<string>, m: Table<string>, rights: seq<Table<string>>, keys: seq<string>)
    requires Sortable(t, keys) && Lookups(rights, keys) && NoClash(t.columns, rights, keys) && |rights| > 0
    requires m.columns == t.columns + Except(rights[0].columns, keys)
    ensures Lookups(rights[1..], keys) && NoClash(m.columns, rights[1..], keys)
  {
    var later := rights[1..];
    forall i, c | 0 <= i < |later| && c in later[i].columns && c !in keys
      ensures c !in m.columns
      ensures forall j :: 0 <= j < |later| && j != i ==> c !in later[j].columns
    {
      assert later[i] == rights[i + 1];
      assert c !in rights[0].columns;
      forall j | 0 <= j < |later| && j != i
        ensures c !in later[j].columns
      {
        assert later[j] == rights[j + 1];
      }
    }
    forall i | 0 <= i < |later|
      ensures Sortable(later[i], keys) && UniqueKeys(later[i], keys)
    {
      assert later[i] == rights[i + 1];
    }
  }

  lemma SameKey(t: Table<string>, m: Table<string>, keys: seq<string>, p: nat)
    requires Sortable(t, keys) && Sortable(m, keys) && p < |t.rows| == |m.rows|
    requires forall c :: c in t.columns ==> c in m.columns && Cell(m, p, c) == Cell(t, p, c)
    ensures Key(m, p, keys) == Key(t, p, keys)
  {
  }

  lemma KeepsLeftThrough(t: Table<string>, m: Table<string>, rights: seq<Table<string>>, keys: seq<string>, u: Table<string>)
    requires Sortable(t, keys) && Lookups(rights, keys) && |rights| > 0
    requires Sortable(m, keys) && Lookups(rights[1..], keys)
    requires m.columns == t.columns + Except(rights[0].columns, keys)
    requires |m.rows| == |t.rows|
    requires forall p, c :: 0 <= p < |t.rows| && c in t.columns ==> Cell(m, p, c) == Cell(t, p, c)
    requires forall p, c :: 0 <= p < |t.rows| && c in rights[0].columns && c !in keys ==>
      Cell(m, p, c) == Lookup(rights[0], keys, Key(t, p, keys), c)
    requires KeepsLeft(m, rights[1..], keys, u)
    ensures KeepsLeft(t, rights, keys, u)
  {
    var later := rights[1..];
    assert Added(rights, keys) == Except(rights[0].columns, keys) + Added(later, keys);
    forall c | c in t.columns
      ensures c in u.columns
    {
      assert c in m.columns;
    }
    forall i, c | 0 <= i < |rights| && c in rights[i].columns && c !in keys
      ensures c in u.columns
    {
      if i == 0 {
        assert c in Except(rights[0].columns, keys);
        assert c in m.columns;
      } else {
        assert rights[i] == later[i - 1];
      }
    }
    forall p, c | 0 <= p < |t.rows| && c in t.columns
      ensures Cell(u, p, c) == Cell(t, p, c)
    {
      assert c in m.columns;
    }
    LookupsThrough(t, m, rights, keys, u);
  }

  lemma LookupsThrough(t: Table<string>, m: Table<string>, rights: seq<Table<string>>, keys: seq<string>, u: Table<string>)
    requires Sortable(t, keys) && Lookups(rights, keys) && |rights| > 0
    requires Sortable(m, keys) && Lookups(rights[1..], keys)
    requires m.columns == t.columns + Except(rights[0].columns, keys)
    requires |m.rows| == |t.rows|
    requires forall p, c :: 0 <= p < |t.rows| && c in t.columns ==> Cell(m, p, c) == Cell(t, p, c)
    requires forall p, c :: 0 <= p < |t.rows| && c in rights[0].columns && c !in keys ==>
      Cell(m, p, c) == Lookup(rights[0], keys, Key(t, p, keys), c)
    requires KeepsLeft(m, rights[1..], keys, u)
    requires forall i, c :: 0 <= i < |rights| && c in rights[i].columns && c !in keys ==> c in u.columns
    ensures forall i, p, c :: 0 <= i < |rights| && 0 <= p < |t.rows| && c in rights[i].columns && c !in keys ==>
      Cell(u, p, c) == Lookup(rights[i], keys, Key(t, p, keys), c)
  {
    var later := rights[1..];
    forall i, p, c | 0 <= i < |rights| && 0 <= p < |t.rows| && c in rights[i].columns && c !in keys
      ensures Cell(u, p, c) == Lookup(rights[i], keys, Key(t, p, keys), c)
    {
      if i == 0 {
        assert c in Except(rights[0].columns, keys);
        assert c in m.columns;
      } else {
        assert rights[i] == later[i - 1];
        SameKey(t, m, keys, p);
      }
    }
  }

  // ---------------------------------------------------------------------------
  // A run of `drop(name, axis=1, inplace=True)` calls

  /** The frame after dropping each named column in turn; the first name that
      is not (or no longer) a column is a KeyError. */
  function DropAll(t: Table<string>, names: seq<string>): (r: Result<Table<string>>)
    requires WellFormed(t)
    ensures r.Ok? ==> WellFormed(r.value)
    decreases |names|
  {
    if |names| == 0 then Ok(t)
    else
      var init :- DropAll(t, names[..|names| - 1]);
      DropColumn(init, names[|names| - 1])
  }

  /** The drops one statement at a time; a failing drop leaves the earlier ones
      done, as pandas does. */
  method DropEach(df: DataFrame<string>, names: seq<string>) returns (r: Outcome)
    requires df.Valid()
    modifies df
    ensures df.Valid()
    ensures r.Pass? <==> DropAll(old(df.Value()), names).Ok?
    ensures r.Pass? ==> df.Value() == DropAll(old(df.Value()), names).value
    ensures r.Fail? ==> DropAll(old(df.Value()), names) == Err(r.error)
  {
    ghost var t := df.Value();
    for i := 0 to |names|
      invariant df.Valid() && DropAll(t, names[..i]) == Ok(df.Value())
    {
      assert names[..i + 1][..i] == names[..i];
      var o := df.Drop(names[i]);
      if o.Fail? {
        DropAllSticks(t, names, i + 1);
        return Fail(o.error);
      }
    }
    assert names[..|names|] == names;
    r := Pass;
  }

  /** Once a drop fails, the later ones do not run. */
  lemma {:induction false} DropAllSticks(t: Table<string>, names: seq<string>, n: nat)
    requires WellFormed(t) && n <= |names| && DropAll(t, names[..n]).Err?
    ensures DropAll(t, names) == DropAll(t, names[..n])
    decreases |names|
  {
    if n == |names| {
      assert names[..n] == names;
    } else {
      var init := names[..|names| - 1];
      assert init[..n] == names[..n];
      DropAllSticks(t, init, n);
    }
  }

  /** Excluding no names keeps every name. */
  lemma {:induction false} ExceptNone(cols: seq<string>)
    ensures Except(cols, []) == cols
    decreases |cols|
  {
    if |cols| > 0 {
      var n := |cols| - 1;
      ExceptSnoc(cols, [], n);
      assert cols[..n + 1] == cols;
      ExceptNone(cols[..n]);
    }
  }

  /** Excluding `a` and then `b` excludes `a + b`. */
  lemma {:induction false} ExceptTwice(cols: seq<string>, a: seq<string>, b: seq<string>)
    ensures Except(Except(cols, a), b) == Except(cols, a + b)
    decreases |cols|
  {
    if |cols| > 0 {
      var n := |cols| - 1;
      var last := cols[n];
      assert cols[..n + 1] == cols;
      ExceptSnoc(cols, a, n);
      ExceptSnoc(cols, a + b, n);
      var x := if last in a then [] else [last];
      ExceptAppend(Except(cols[..n], a), x, b);
      ExceptTwice(cols[..n], a, b);
      if x == [last] {
        ExceptSnoc([last], b, 0);
        assert [last][..1] == [last] && [last][..0] == [];
      }
    }
  }

  /** `u` is `t` without the named columns: the other columns in their order,
      the same labels, the same rows and cells. */
  ghost predicate DroppedFrom(t: Table<string>, names: seq<string>, u: Table<string>)
    requires WellFormed(t) && WellFormed(u)
  {
    && u.columns == Except(t.columns, names)
    && u.index == t.index && |u.rows| == |t.rows|
    && forall p, c :: 0 <= p < |t.rows| && c in u.columns ==> Cell(u, p, c) == Cell(t, p, c)
  }

  /** The drops succeed exactly when the names are distinct columns; then
      they remove exactly those columns and leave every other cell. */
  lemma {:induction false} DropAllCells(t: Table<string>, names: seq<string>)
    requires WellFormed(t)
    ensures DropAll(t, names).Ok? <==> Distinct(names) && forall n :: n in names ==> n in t.columns
    ensures DropAll(t, names).Err? ==> DropAll(t, names).error == KeyError
    ensures DropAll(t, names).Ok? ==> DroppedFrom(t, names, DropAll(t, names).value)
    decreases |names|
  {
    if |names| == 0 {
      ExceptNone(t.columns);
      DistinctIntro(names);
    } else {
      var n := |names| - 1;
      var before := names[..n];
      var last := names[n];
      assert names == before + [last];
      DropAllCells(t, before);
      var r := DropAll(t, names);
      if DropAll(t, before).Ok? {
        var init := DropAll(t, before).value;
        assert last in init.columns <==> last in t.columns && last !in before;
        if r.Ok? {
          DropStep(t, before, last, init, r.value);
        }
        DistinctSnoc(before, last);
      } else {
        if Distinct(names) {
          DistinctPrefix(names, n);
        }
      }
    }
  }

  lemma DropStep(t: Table<string>, before: seq<string>, last: string, init: Table<string>, u: Table<string>)
    requires WellFormed(t) && WellFormed(init) && DroppedFrom(t, before, init)
    requires DropColumn(init, last) == Ok(u)
    ensures DroppedFrom(t, before + [last], u)
  {
    var k := Position(init.columns, last);
    ExceptWithout(init.columns, k, []);
    ExceptNone(Without(init.columns, k));
    assert [init.columns[k]] + [] == [last];
    ExceptTwice(t.columns, before, [last]);
  }

  /** A sequence with one more element is distinct exactly when the shorter
      one is and lacks that element. */
  lemma DistinctSnoc(s: seq<string>, x: string)
    ensures Distinct(s + [x]) <==> Distinct(s) && x !in s
  {
    if Distinct(s + [x]) {
      assert (s + [x])[..|s|] == s;
      DistinctPrefix(s + [x], |s|);
      if x in s {
        var i :| 0 <= i < |s| && s[i] == x;
        DistinctAt(s + [x], i, |s|);
      }
    }
    if Distinct(s) && x !in s {
      DistinctAppend(s, x);
    }
  }

  // ---------------------------------------------------------------------------
  // Frames of known columns

  /** `r` holds the key columns and the named ones, and nothing else. */
  ghost predicate Brings(r: Table<string>, keys: seq<string>, names: seq<string>) {
    && WellFormed(r)
    && (forall c :: c in r.columns <==> c in keys || c in names)
    && forall c :: c in names ==> c !in keys
  }

  /** A right frame that holds the keys and one more column brings exactly
      that column. */
  lemma OnlyAdded(r: Table<string>, keys: seq<string>, x: string)
    requires Brings(r, keys, [x])
    ensures Except(r.columns, keys) == [x]
  {
    var rest := Except(r.columns, keys);
    assert x in rest;
    if |rest| > 1 {
      assert rest[0] in rest && rest[1] in rest;
      DistinctAt(rest, 0, 1);
    }
  }

  /** Right frames whose own names are new to the left frame and to each
      other do not clash. */
  lemma NoClashOf(cols: seq<string>, rights: seq<Table<string>>, keys: seq<string>, names: seq<seq<string>>)
    requires |names| == |rights| && forall i :: 0 <= i < |rights| ==> Brings(rights[i], keys, names[i])
    requires forall i, c :: 0 <= i < |names| && c in names[i] ==> c !in cols
    requires forall i, j, c :: 0 <= i < |names| && 0 <= j < |names| && i != j && c in names[i] ==> c !in names[j]
    ensures NoClash(cols, rights, keys)
  {
    forall i, c | 0 <= i < |rights| && c in rights[i].columns && c !in keys
      ensures c !in cols && forall j :: 0 <= j < |rights| && j != i ==> c !in rights[j].columns
    {
      assert c in names[i];
      forall j | 0 <= j < |rights| && j != i
        ensures c !in rights[j].columns
      {
        assert c !in names[j];
      }
    }
  }

  /** Each right frame brings one column of its own, named by `vars`, and
      holds no key twice. */
  ghost predicate OneEach(rights: seq<Table<string>>, keys: seq<string>, vars: seq<string>) {
    && |vars| == |rights|
    && forall i :: 0 <= i < |rights| ==>
         Brings(rights[i], keys, [vars[i]]) && Sortable(rights[i], keys) && UniqueKeys(rights[i], keys)
  }

  lemma {:induction false} AddedOne(rights: seq<Table<string>>, keys: seq<string>, vars: seq<string>)
    requires OneEach(rights, keys, vars)
    ensures Added(rights, keys) == vars
    decreases |rights|
  {
    if |rights| > 0 {
      OnlyAdded(rights[0], keys, vars[0]);
      assert OneEach(rights[1..], keys, vars[1..]) by {
        forall i | 0 <= i < |rights| - 1
          ensures Brings(rights[1..][i], keys, [vars[1..][i]])
        {
          assert rights[1..][i] == rights[i + 1];
        }
      }
      AddedOne(rights[1..], keys, vars[1..]);
    }
  }

  /** Merging right frames that each bring one new column: the left columns
      and then those, the left rows in order with their cells, and each new
      cell the right frame's figure for the row's key, or NaN. */
  lemma MergeFigures(t: Table<string>, rights: seq<Table<string>>, keys: seq<string>, vars: seq<string>)
    returns (u: Table<string>)
    requires Sortable(t, keys) && OneEach(rights, keys, vars)
    requires Distinct(vars) && forall v :: v in vars ==> v !in t.columns
    ensures MergeAll(t, rights, keys) == Ok(u) && WellFormed(u)
    ensures u.columns == t.columns + vars && |u.rows| == |t.rows|
    ensures forall p, c :: 0 <= p < |t.rows| && c in t.columns ==> Cell(u, p, c) == Cell(t, p, c)
    ensures forall i, p :: 0 <= i < |vars| && 0 <= p < |t.rows| ==>
      Cell(u, p, vars[i]) == Lookup(rights[i], keys, Key(t, p, keys), vars[i])
  {
    var names := seq(|vars|, i requires 0 <= i < |vars| => [vars[i]]);
    forall i, j, c | 0 <= i < |names| && 0 <= j < |names| && i != j && c in names[i]
      ensures c !in names[j]
    {
      DistinctAt(vars, i, j);
    }
    NoClashOf(t.columns, rights, keys, names);
    u := MergeAllKeepsLeft(t, rights, keys);
    AddedOne(rights, keys, vars);
    forall i, p | 0 <= i < |vars| && 0 <= p < |t.rows|
      ensures Cell(u, p, vars[i]) == Lookup(rights[i], keys, Key(t, p, keys), vars[i])
    {
      assert vars[i] in rights[i].columns && vars[i] !in keys;
    }
  }

  // ---------------------------------------------------------------------------
  // todos_ccaa: the five regional series side by side

  /** The merge keys of the regional series. */
  const RegionKeys: seq<string> := ["fecha", "ccaa"]

  /** The figures merged onto the regional cases, in merge order. */
  const CcaaFigures: seq<string> := ["altas", "fallecidos", "hospital", "uci"]

  lemma CcaaFiguresApart()
    ensures Distinct(CcaaFigures)
    ensures forall v :: v in CcaaFigures ==> v !in RegionKeys && v != "casos"
  {
    DistinctIntro(CcaaFigures);
  }

  /** `todos_ccaa`: the cases merged with the discharges, deaths,
      hospitalisations and intensive-care admissions on date and region. */
  function TodosCcaa(casos: Table<string>, altas: Table<string>, fallecidos: Table<string>,
                     hospital: Table<string>, uci: Table<string>): Result<Table<string>>
    requires WellFormed(casos) && WellFormed(altas) && WellFormed(fallecidos)
    requires WellFormed(hospital) && WellFormed(uci)
  {
    MergeAll(casos, [altas, fallecidos, hospital, uci], RegionKeys)
  }

  /** With each series as `normalize_ccaa` leaves it (the date, the region
      and its one figure) and one row per date and region in each of the four
      merged ones, the merge keeps the rows of cases in their order with their
      cells, appends the four other figures in that order, and gives each row
      the figure each other series holds for its date and region, or NaN. */
  lemma TodosCcaaCells(casos: Table<string>, altas: Table<string>, fallecidos: Table<string>,
                       hospital: Table<string>, uci: Table<string>) returns (u: Table<string>)
    requires Brings(casos, RegionKeys, ["casos"])
    requires WellFormed(altas) && WellFormed(fallecidos) && WellFormed(hospital) && WellFormed(uci)
    requires OneEach([altas, fallecidos, hospital, uci], RegionKeys, CcaaFigures)
    ensures TodosCcaa(casos, altas, fallecidos, hospital, uci) == Ok(u) && WellFormed(u)
    ensures u.columns == casos.columns + CcaaFigures && |u.rows| == |casos.rows|
    ensures forall p, c :: 0 <= p < |casos.rows| && c in casos.columns ==> Cell(u, p, c) == Cell(casos, p, c)
    ensures var rights := [altas, fallecidos, hospital, uci];
      forall i, p :: 0 <= i < 4 && 0 <= p < |casos.rows| ==>
        Cell(u, p, CcaaFigures[i]) == Lookup(rights[i], RegionKeys, Key(casos, p, RegionKeys), CcaaFigures[i])
  {
    var rights := [altas, fallecidos, hospital, uci];
    CcaaFiguresApart();
    u := MergeFigures(casos, rights, RegionKeys, CcaaFigures);
  }

  // ---------------------------------------------------------------------------
  // todas_acumulado: Cantabria's four running totals side by side

  /** Renaming that sends no two names of `cols` to one name keeps them
      distinct. */
  lemma RenamedDistinct(m: map<string, string>, cols: seq<string>)
    requires Distinct(cols)
    requires forall a, b :: a in cols && b in cols && a != b ==> Renamed(m, a) != Renamed(m, b)
    ensures Distinct(RenamedAll(m, cols))
  {
    var r := RenamedAll(m, cols);
    forall i, j | 0 <= i < j < |r|
      ensures Apart(r, i, j)
    {
      DistinctAt(cols, i, j);
      assert cols[i] in cols && cols[j] in cols;
    }
  }

  /** The merge key of Cantabria's series. */
  const DateKey: seq<string> := ["fecha"]

  /** One of Cantabria's series after `transform` and `deacumulate`: the date,
      the running total and the daily figure, and no date twice. */
  ghost predicate Running(t: Table<string>, cumulative: string, daily: string) {
    Brings(t, DateKey, [cumulative, daily]) && Sortable(t, DateKey) && UniqueKeys(t, DateKey)
  }

  /** The daily figures dropped after the merge. */
  const Dailies: seq<string> := ["casos", "altas", "fallecidos", "uci"]

  /** The running totals renamed after the drops. */
  const TotalNames: map<string, string> := map[
    "casos-acumulado" := "casos",
    "altas-acumulado" := "altas",
    "fallecidos-acumulado" := "fallecidos",
    "uci-acumulado" := "uci"]

  /** `todas_acumulado`: the cases merged on the date with the discharges,
      deaths and intensive-care admissions, without the daily figures, the
      running totals under the plain names. */
  function TodasAcumulado(casos: Table<string>, altas: Table<string>, fallecidos: Table<string>,
                          uci: Table<string>): Result<Table<string>>
    requires WellFormed(casos) && WellFormed(altas) && WellFormed(fallecidos) && WellFormed(uci)
  {
    var merged :- MergeAll(casos, [altas, fallecidos, uci], DateKey);
    var dropped :- DropAll(merged, Dailies);
    RenameColumns(dropped, TotalNames)
  }

  /** The statements as written: three merges into a new frame, four drops
      and a rename in place. */
  method TodasAcumuladoFrame(casos: Table<string>, altas: Table<string>, fallecidos: Table<string>,
                             uci: Table<string>) returns (r: Result<DataFrame<string>>)
    requires WellFormed(casos) && WellFormed(altas) && WellFormed(fallecidos) && WellFormed(uci)
    ensures r.Ok? <==> TodasAcumulado(casos, altas, fallecidos, uci).Ok?
    ensures r.Ok? ==> fresh(r.value) && r.value.Valid()
    ensures r.Ok? ==> r.value.Value() == TodasAcumulado(casos, altas, fallecidos, uci).value
    ensures r.Err? ==> TodasAcumulado(casos, altas, fallecidos, uci) == Err(r.error)
  {
    var merged := MergeAll(casos, [altas, fallecidos, uci], DateKey);
    if merged.Err? {
      return Err(merged.error);
    }
    var df := new DataFrame(merged.value);
    var o := DropEach(df, Dailies);
    if o.Fail? {
      return Err(o.error);
    }
    o := df.Rename(TotalNames);
    if o.Fail? {
      return Err(o.error);
    }
    r := Ok(df);
  }

  // ---------------------------------------------------------------------------
  // Running totals merged, the daily figures dropped, the totals renamed

  /** A name the right frames bring is a non-key column of one of them. */
  lemma {:induction false} AddedHas(rights: seq<Table<string>>, keys: seq<string>)
    ensures forall c :: c in Added(rights, keys) <==>
      exists i :: 0 <= i < |rights| && c in rights[i].columns && c !in keys
    decreases |rights|
  {
    if |rights| > 0 {
      var later := rights[1..];
      AddedHas(later, keys);
      forall c | c in Added(rights, keys)
        ensures exists i :: 0 <= i < |rights| && c in rights[i].columns && c !in keys
      {
        if c !in Except(rights[0].columns, keys) {
          var j :| 0 <= j < |later| && c in later[j].columns && c !in keys;
          assert later[j] == rights[j + 1];
        }
      }
      forall c, i | 0 <= i < |rights| && c in rights[i].columns && c !in keys
        ensures c in Added(rights, keys)
      {
        if i > 0 {
          assert later[i - 1] == rights[i];
        }
      }
    }
  }

  /** The left frame holds the keys, a running total `cums[0]` and its daily
      figure `dailies[0]`; right frame `i` holds the keys, `cums[i + 1]` and
      `dailies[i + 1]` and no key twice; all these names differ. */
  ghost predicate TotalsIn(t: Table<string>, rights: seq<Table<string>>, keys: seq<string>,
                           cums: seq<string>, dailies: seq<string>) {
    && |cums| == |dailies| == |rights| + 1
    && Brings(t, keys, [cums[0], dailies[0]]) && Sortable(t, keys)
    && (forall i :: 0 <= i < |rights| ==>
          Brings(rights[i], keys, [cums[i + 1], dailies[i + 1]]) && Sortable(rights[i], keys)
          && UniqueKeys(rights[i], keys))
    && Distinct(cums + dailies)
  }

  /** No total or daily name is a key, and no total is a daily name. */
  lemma TotalsApart(t: Table<string>, rights: seq<Table<string>>, keys: seq<string>,
                    cums: seq<string>, dailies: seq<string>)
    requires TotalsIn(t, rights, keys, cums, dailies)
    ensures forall k :: 0 <= k < |cums| ==> cums[k] !in keys && dailies[k] !in keys
    ensures forall c :: c in cums ==> c !in dailies
    ensures Distinct(cums) && Distinct(dailies)
  {
    var all := cums + dailies;
    var n := |cums|;
    forall k | 0 <= k < n
      ensures cums[k] !in keys && dailies[k] !in keys
    {
      if k > 0 {
        assert Brings(rights[k - 1], keys, [cums[k], dailies[k]]);
        assert cums[k] in [cums[k], dailies[k]] && dailies[k] in [cums[k], dailies[k]];
      } else {
        assert cums[0] in [cums[0], dailies[0]] && dailies[0] in [cums[0], dailies[0]];
      }
    }
    forall c | c in cums
      ensures c !in dailies
    {
      if c in dailies {
        var i :| 0 <= i < n && cums[i] == c;
        var j :| 0 <= j < n && dailies[j] == c;
        DistinctAt(all, i, n + j);
      }
    }
    forall i, j | 0 <= i < j < n
      ensures Apart(cums, i, j) && Apart(dailies, i, j)
    {
      DistinctAt(all, i, j);
      DistinctAt(all, n + i, n + j);
    }
  }

  /** The merge of the series holds exactly the keys, the totals and the daily
      figures. */
  lemma MergeTotals(t: Table<string>, rights: seq<Table<string>>, keys: seq<string>,
                    cums: seq<string>, dailies: seq<string>) returns (merged: Table<string>)
    requires TotalsIn(t, rights, keys, cums, dailies)
    ensures MergeAll(t, rights, keys) == Ok(merged) && KeepsLeft(t, rights, keys, merged)
    ensures forall c :: c in merged.columns <==> c in keys || c in cums || c in dailies
  {
    TotalsNoClash(t, rights, keys, cums, dailies);
    merged := MergeAllKeepsLeft(t, rights, keys);
    TotalsColumns(t, rights, keys, cums, dailies, merged.columns);
  }

  lemma TotalsNoClash(t: Table<string>, rights: seq<Table<string>>, keys: seq<string>,
                      cums: seq<string>, dailies: seq<string>)
    requires TotalsIn(t, rights, keys, cums, dailies)
    ensures Lookups(rights, keys) && NoClash(t.columns, rights, keys)
  {
    var all := cums + dailies;
    var n := |cums|;
    var names := seq(|rights|, i requires 0 <= i < |rights| => [cums[i + 1], dailies[i + 1]]);
    TotalsApart(t, rights, keys, cums, dailies);
    forall i, c | 0 <= i < |names| && c in names[i]
      ensures c !in t.columns
    {
      DistinctAt(all, 0, i + 1);
      DistinctAt(all, 0, n + i + 1);
      DistinctAt(all, n, i + 1);
      DistinctAt(all, n, n + i + 1);
    }
    forall i, j, c | 0 <= i < |names| && 0 <= j < |names| && i != j && c in names[i]
      ensures c !in names[j]
    {
      DistinctAt(all, i + 1, j + 1);
      DistinctAt(all, i + 1, n + j + 1);
      DistinctAt(all, n + i + 1, j + 1);
      DistinctAt(all, n + i + 1, n + j + 1);
    }
    NoClashOf(t.columns, rights, keys, names);
  }

  lemma TotalsColumns(t: Table<string>, rights: seq<Table<string>>, keys: seq<string>,
                      cums: seq<string>, dailies: seq<string>, cols: seq<string>)
    requires TotalsIn(t, rights, keys, cums, dailies) && cols == t.columns + Added(rights, keys)
    ensures forall c :: c in cols <==> c in keys || c in cums || c in dailies
  {
    var n := |cums|;
    AddedHas(rights, keys);
    forall c
      ensures c in cols <==> c in keys || c in cums || c in dailies
    {
      if c in cums && c !in keys {
        var k :| 0 <= k < n && cums[k] == c;
        if k > 0 {
          assert c in rights[k - 1].columns;
        }
      }
      if c in dailies && c !in keys {
        var k :| 0 <= k < n && dailies[k] == c;
        if k > 0 {
          assert c in rights[k - 1].columns;
        }
      }
      if c in Added(rights, keys) {
        var i :| 0 <= i < |rights| && c in rights[i].columns && c !in keys;
        assert c == cums[i + 1] || c == dailies[i + 1];
      }
    }
  }

  /** Dropping the daily figures leaves the keys and the totals. */
  lemma DropTotals(t: Table<string>, rights: seq<Table<string>>, keys: seq<string>,
                   cums: seq<string>, dailies: seq<string>, merged: Table<string>) returns (dropped: Table<string>)
    requires TotalsIn(t, rights, keys, cums, dailies) && WellFormed(merged)
    requires forall c :: c in merged.columns <==> c in keys || c in cums || c in dailies
    ensures DropAll(merged, dailies) == Ok(dropped) && WellFormed(dropped) && DroppedFrom(merged, dailies, dropped)
    ensures forall c :: c in dropped.columns <==> c in keys || c in cums
  {
    TotalsApart(t, rights, keys, cums, dailies);
    DropAllCells(merged, dailies);
    dropped := DropAll(merged, dailies).value;
    forall c | c in dailies
      ensures c !in keys
    {
      var k :| 0 <= k < |dailies| && dailies[k] == c;
    }
  }

  /** How `m` renames: each total to its daily name, no key at all. */
  predicate RenamesTotals(m: map<string, string>, keys: seq<string>, cums: seq<string>, dailies: seq<string>)
    requires |cums| == |dailies|
  {
    && (forall k :: 0 <= k < |cums| ==> cums[k] in m && m[cums[k]] == dailies[k])
    && forall c :: c in keys ==> c !in m
  }

  /** Renaming the totals to the daily names succeeds and moves each total's
      cells under its daily name; the keys stay. */
  lemma RenameTotals(keys: seq<string>, cums: seq<string>, dailies: seq<string>, m: map<string, string>,
                     dropped: Table<string>) returns (u: Table<string>)
    requires |cums| == |dailies| && RenamesTotals(m, keys, cums, dailies)
    requires Distinct(dailies) && forall k :: 0 <= k < |cums| ==> cums[k] !in keys && dailies[k] !in keys
    requires WellFormed(dropped) && forall c :: c in dropped.columns <==> c in keys || c in cums
    ensures RenameColumns(dropped, m) == Ok(u) && WellFormed(u) && u.rows == dropped.rows
    ensures forall c :: c in u.columns <==> c in keys || c in dailies
    ensures forall p, c :: 0 <= p < |dropped.rows| && c in keys ==> Cell(u, p, c) == Cell(dropped, p, c)
    ensures forall k, p :: 0 <= k < |cums| && 0 <= p < |dropped.rows| ==>
      Cell(u, p, dailies[k]) == Cell(dropped, p, cums[k])
  {
    var cols := dropped.columns;
    forall a, b | a in cols && b in cols && a != b
      ensures Renamed(m, a) != Renamed(m, b)
    {
      if a in cums && b in cums {
        var i :| 0 <= i < |cums| && cums[i] == a;
        var j :| 0 <= j < |cums| && cums[j] == b;
        DistinctAt(dailies, i, j);
      } else if a in cums {
        var i :| 0 <= i < |cums| && cums[i] == a;
      } else if b in cums {
        var j :| 0 <= j < |cums| && cums[j] == b;
      }
    }
    RenamedDistinct(m, cols);
    u := RenameColumns(dropped, m).value;
    forall c | c in u.columns
      ensures c in keys || c in dailies
    {
      var k :| 0 <= k < |u.columns| && u.columns[k] == c;
      assert cols[k] in cols;
      if cols[k] in cums {
        var i :| 0 <= i < |cums| && cums[i] == cols[k];
      }
    }
    forall k | 0 <= k < |cums|
      ensures dailies[k] in u.columns
    {
      assert cums[k] in cols;
    }
  }

  /** `u` has the rows of the left frame in order, the keys and, under each
      daily name, the running total: the left frame's own for `dailies[0]`,
      and for `dailies[i + 1]` the total right frame `i` holds for the row's
      key, or NaN. */
  ghost predicate TotalsAt(t: Table<string>, rights: seq<Table<string>>, keys: seq<string>,
                           cums: seq<string>, dailies: seq<string>, u: Table<string>)
    requires TotalsIn(t, rights, keys, cums, dailies)
  {
    && WellFormed(u) && |u.rows| == |t.rows|
    && (forall c :: c in u.columns <==> c in keys || c in dailies)
    && (forall p, c :: 0 <= p < |t.rows| && c in keys ==> Cell(u, p, c) == Cell(t, p, c))
    && (forall p :: 0 <= p < |t.rows| ==> Cell(u, p, dailies[0]) == Cell(t, p, cums[0]))
    && forall i, p :: 0 <= i < |rights| && 0 <= p < |t.rows| ==>
         Cell(u, p, dailies[i + 1]) == Lookup(rights[i], keys, Key(t, p, keys), cums[i + 1])
  }

  /** Merge, drop the daily figures, rename the totals: the frame of running
      totals by date. */
  lemma TotalsCells(t: Table<string>, rights: seq<Table<string>>, keys: seq<string>,
                    cums: seq<string>, dailies: seq<string>, m: map<string, string>)
    returns (merged: Table<string>, dropped: Table<string>, u: Table<string>)
    requires TotalsIn(t, rights, keys, cums, dailies) && RenamesTotals(m, keys, cums, dailies)
    ensures MergeAll(t, rights, keys) == Ok(merged) && WellFormed(merged)
    ensures DropAll(merged, dailies) == Ok(dropped) && WellFormed(dropped)
    ensures RenameColumns(dropped, m) == Ok(u) && TotalsAt(t, rights, keys, cums, dailies, u)
  {
    merged, dropped := TotalsStage(t, rights, keys, cums, dailies);
    TotalsApart(t, rights, keys, cums, dailies);
    u := RenameTotals(keys, cums, dailies, m, dropped);
    assert forall k :: 0 <= k < |cums| ==> cums[k] in dropped.columns;
    forall p, c | 0 <= p < |t.rows| && c in keys
      ensures Cell(u, p, c) == Cell(t, p, c)
    {
      assert c in dropped.columns && c in t.columns;
      assert Cell(u, p, c) == Cell(dropped, p, c);
      assert Cell(dropped, p, c) == Cell(merged, p, c);
    }
    forall p | 0 <= p < |t.rows|
      ensures Cell(u, p, dailies[0]) == Cell(t, p, cums[0])
    {
      var c := cums[0];
      assert c in [c, dailies[0]] && c in t.columns && c in dropped.columns;
      assert Cell(u, p, dailies[0]) == Cell(dropped, p, c);
      assert Cell(dropped, p, c) == Cell(merged, p, c);
    }
    RightTotals(t, rights, keys, cums, dailies, merged, dropped);
    forall i, p | 0 <= i < |rights| && 0 <= p < |t.rows|
      ensures Cell(u, p, dailies[i + 1]) == Lookup(rights[i], keys, Key(t, p, keys), cums[i + 1])
    {
      assert Cell(u, p, dailies[i + 1]) == Cell(dropped, p, cums[i + 1]);
    }
  }

  lemma TotalsStage(t: Table<string>, rights: seq<Table<string>>, keys: seq<string>,
                    cums: seq<string>, dailies: seq<string>) returns (merged: Table<string>, dropped: Table<string>)
    requires TotalsIn(t, rights, keys, cums, dailies)
    ensures MergeAll(t, rights, keys) == Ok(merged) && KeepsLeft(t, rights, keys, merged)
    ensures DropAll(merged, dailies) == Ok(dropped) && WellFormed(dropped) && DroppedFrom(merged, dailies, dropped)
    ensures forall c :: c in dropped.columns <==> c in keys || c in cums
  {
    merged := MergeTotals(t, rights, keys, cums, dailies);
    dropped := DropTotals(t, rights, keys, cums, dailies, merged);
  }

  lemma RightTotals(t: Table<string>, rights: seq<Table<string>>, keys: seq<string>,
                    cums: seq<string>, dailies: seq<string>, merged: Table<string>, dropped: Table<string>)
    requires TotalsIn(t, rights, keys, cums, dailies) && KeepsLeft(t, rights, keys, merged)
    requires WellFormed(dropped) && DroppedFrom(merged, dailies, dropped)
    requires forall k :: 0 <= k < |cums| ==> cums[k] in dropped.columns
    ensures forall i, p :: 0 <= i < |rights| && 0 <= p < |t.rows| ==>
      Cell(dropped, p, cums[i + 1]) == Lookup(rights[i], keys, Key(t, p, keys), cums[i + 1])
  {
    forall i, p | 0 <= i < |rights| && 0 <= p < |t.rows|
      ensures Cell(dropped, p, cums[i + 1]) == Lookup(rights[i], keys, Key(t, p, keys), cums[i + 1])
    {
      var c := cums[i + 1];
      assert Brings(rights[i], keys, [c, dailies[i + 1]]);
      assert c in [c, dailies[i + 1]];
    }
  }

  /** The running totals of `todas_acumulado`, in merge order. */
  const TotalColumns: seq<string> := ["casos-acumulado", "altas-acumulado", "fallecidos-acumulado", "uci-acumulado"]

  lemma TotalNamesApart()
    ensures Distinct(TotalColumns + Dailies)
    ensures RenamesTotals(TotalNames, DateKey, TotalColumns, Dailies)
  {
    DistinctIntro(TotalColumns + Dailies);
  }

  /** With each of Cantabria's series holding the date, its running total and
      its daily figure, and one row per date in the discharges, deaths and
      intensive-care series, `todas_acumulado` keeps the rows of cases in
      order and holds the date and, under the plain names, the four running
      totals: the cases' own, and each other one as its series holds it for
      the row's date, or NaN. */
  lemma TodasAcumuladoCells(casos: Table<string>, altas: Table<string>, fallecidos: Table<string>,
                            uci: Table<string>) returns (u: Table<string>)
    requires Brings(casos, DateKey, ["casos-acumulado", "casos"]) && Sortable(casos, DateKey)
    requires Running(altas, "altas-acumulado", "altas") && Running(fallecidos, "fallecidos-acumulado", "fallecidos")
    requires Running(uci, "uci-acumulado", "uci")
    ensures TodasAcumulado(casos, altas, fallecidos, uci) == Ok(u)
    ensures TotalsIn(casos, [altas, fallecidos, uci], DateKey, TotalColumns, Dailies)
    ensures TotalsAt(casos, [altas, fallecidos, uci], DateKey, TotalColumns, Dailies, u)
  {
    var rights := [altas, fallecidos, uci];
    TotalNamesApart();
    assert TotalsIn(casos, rights, DateKey, TotalColumns, Dailies) by {
      assert rights[0] == altas && rights[1] == fallecidos && rights[2] == uci;
    }
    var merged, dropped;
    merged, dropped, u := TotalsCells(casos, rights, DateKey, TotalColumns, Dailies, TotalNames);
  }

  // ---------------------------------------------------------------------------
  // cant_esp: the national against the Cantabrian running total of cases

  /** A name that no suffix `_x` or `_y` can produce: empty, or not ending in
      `x` or `y`. */
  predicate Plain(c: string) {
    |c| == 0 || (c[|c| - 1] != 'x' && c[|c| - 1] != 'y')
  }

  lemma SuffixInjective(a: string, b: string, s: string)
    requires a + s == b + s
    ensures a == b
  {
    assert |a| == |b|;
    assert a == (a + s)[..|a|] && b == (b + s)[..|b|];
  }

  lemma SuffixLast(a: string, s: string)
    requires s == "_x" || s == "_y"
    ensures (a + s)[|a + s| - 1] == s[1]
  {
  }

  /** Two plain names with suffixes from `""`, `"_x"` and `"_y"` coincide
      only when both the names and the suffixes do. */
  lemma TaggedApart(a: string, sa: string, b: string, sb: string)
    requires Plain(a) && Plain(b)
    requires sa == "" || sa == "_x" || sa == "_y"
    requires sb == "" || sb == "_x" || sb == "_y"
    requires a != b || sa != sb
    ensures a + sa != b + sb
  {
    if sa != "" { SuffixLast(a, sa); }
    if sb != "" { SuffixLast(b, sb); }
    if sa == sb && a + sa == b + sb {
      SuffixInjective(a, b, sa);
    }
  }

  /** The merged names of plain, distinct names are distinct: a suffixed
      name ends in `x` or `y` and so differs from every plain one. */
  lemma MergedDistinct(left: seq<string>, keys: seq<string>, rest: seq<string>)
    requires Distinct(left) && Distinct(rest)
    requires forall c :: c in left || c in rest ==> Plain(c)
    ensures Distinct(MergedColumns(left, keys, rest))
  {
    var cols := MergedColumns(left, keys, rest);
    forall i, j | 0 <= i < j < |cols|
      ensures Apart(cols, i, j)
    {
      MergedApart(left, keys, rest, i, j);
    }
  }

  function LeftTag(c: string, keys: seq<string>, rest: seq<string>): (s: string)
    ensures LeftName(c, keys, rest) == c + s
    ensures s == "" || s == "_x"
  {
    if c !in keys && c in rest then "_x" else assert c + "" == c; ""
  }

  function RightTag(c: string, left: seq<string>): (s: string)
    ensures RightName(c, left) == c + s
    ensures s == "" || s == "_y"
  {
    if c in left then "_y" else assert c + "" == c; ""
  }

  lemma MergedApart(left: seq<string>, keys: seq<string>, rest: seq<string>, i: nat, j: nat)
    requires Distinct(left) && Distinct(rest)
    requires forall c :: c in left || c in rest ==> Plain(c)
    requires i < j < |left| + |rest|
    ensures MergedColumns(left, keys, rest)[i] != MergedColumns(left, keys, rest)[j]
  {
    var n := |left|;
    if j < n {
      DistinctAt(left, i, j);
      TaggedApart(left[i], LeftTag(left[i], keys, rest), left[j], LeftTag(left[j], keys, rest));
    } else if i >= n {
      DistinctAt(rest, i - n, j - n);
      TaggedApart(rest[i - n], RightTag(rest[i - n], left), rest[j - n], RightTag(rest[j - n], left));
    } else {
      var a, b := left[i], rest[j - n];
      TaggedApart(a, LeftTag(a, keys, rest), b, RightTag(b, left));
    }
  }

  /** Every merged name comes from a left column under its left name or from
      a right non-key column under its right name, and each of those is one. */
  lemma MergedHas(left: seq<string>, keys: seq<string>, rest: seq<string>, c: string)
    ensures c in left ==> LeftName(c, keys, rest) in MergedColumns(left, keys, rest)
    ensures c in rest ==> RightName(c, left) in MergedColumns(left, keys, rest)
  {
    var cols := MergedColumns(left, keys, rest);
    if c in left {
      var k :| 0 <= k < |left| && left[k] == c;
      assert cols[k] == LeftName(c, keys, rest);
    }
    if c in rest {
      var k :| 0 <= k < |rest| && rest[k] == c;
      assert cols[|left| + k] == RightName(c, left);
    }
  }

  lemma MergedOnly(left: seq<string>, keys: seq<string>, rest: seq<string>, x: string)
    returns (c: string, fromLeft: bool)
    requires x in MergedColumns(left, keys, rest)
    ensures fromLeft ==> c in left && x == LeftName(c, keys, rest)
    ensures !fromLeft ==> c in rest && x == RightName(c, left)
  {
    var cols := MergedColumns(left, keys, rest);
    var k :| 0 <= k < |cols| && cols[k] == x;
    if k < |left| {
      c, fromLeft := left[k], true;
    } else {
      c, fromLeft := rest[k - |left|], false;
    }
  }

  /** The columns of the national frame once its daily figures are computed. */
  const NationalFigures: seq<string> := MainScript.NationalCumulatives + MainScript.NationalDailies

  /** The ten columns dropped after the merge with the Cantabrian cases. */
  const CantEspDrops: seq<string> := [
    "altas-acumulado", "fallecidos-acumulado", "uci-acumulado", "hospital-acumulado", "casos_x",
    "altas", "fallecidos", "uci", "hospital", "casos_y"]

  /** The two running totals of cases the merge suffixes, and their new names. */
  const CantEspTotals: seq<string> := ["casos-acumulado_x", "casos-acumulado_y"]
  const CantEspColumns: seq<string> := ["casos-espana", "casos-cantabria"]
  const CantEspNames: map<string, string> := map[
    "casos-acumulado_x" := "casos-espana",
    "casos-acumulado_y" := "casos-cantabria"]

  /** `espana.merge(casos, how='left', on='fecha')`, ten drops and a rename. */
  function CantEsp(espana: Table<string>, casos: Table<string>): Result<Table<string>>
    requires WellFormed(espana) && WellFormed(casos)
  {
    var merged :- LeftMerge(espana, casos, DateKey);
    var dropped :- DropAll(merged, CantEspDrops);
    RenameColumns(dropped, CantEspNames)
  }

  /** The statements as written: a merge into a new frame, then ten drops and
      a rename in place. */
  method CantEspFrame(espana: Table<string>, casos: Table<string>) returns (r: Result<DataFrame<string>>)
    requires WellFormed(espana) && WellFormed(casos)
    ensures r.Ok? <==> CantEsp(espana, casos).Ok?
    ensures r.Ok? ==> fresh(r.value) && r.value.Valid()
    ensures r.Ok? ==> r.value.Value() == CantEsp(espana, casos).value
    ensures r.Err? ==> CantEsp(espana, casos) == Err(r.error)
  {
    var merged := LeftMerge(espana, casos, DateKey);
    if merged.Err? {
      return Err(merged.error);
    }
    var df := new DataFrame(merged.value);
    var o := DropEach(df, CantEspDrops);
    if o.Fail? {
      return Err(o.error);
    }
    o := df.Rename(CantEspNames);
    if o.Fail? {
      return Err(o.error);
    }
    r := Ok(df);
  }

  /** Every name of the two frames is plain. */
  lemma CantEspPlain(left: seq<string>, rest: seq<string>)
    requires forall c :: c in left <==> c in DateKey || c in NationalFigures
    requires forall c :: c in rest <==> c == "casos-acumulado" || c == "casos"
    ensures forall c :: c in left || c in rest ==> Plain(c)
  {
  }

  /** After the merge, the ten dropped names are columns, and the columns
      that stay are `fecha` and the two suffixed running totals of cases. */
  ghost predicate CantEspMergedColumns(cols: seq<string>) {
    && (forall c :: c in CantEspDrops ==> c in cols)
    && forall c :: c in cols && c !in CantEspDrops <==> c in DateKey || c in CantEspTotals
  }

  lemma CantEspMergedNames(left: seq<string>, rest: seq<string>)
    requires forall c :: c in left <==> c in DateKey || c in NationalFigures
    requires forall c :: c in rest <==> c == "casos-acumulado" || c == "casos"
    ensures CantEspMergedColumns(MergedColumns(left, DateKey, rest))
  {
    var cols := MergedColumns(left, DateKey, rest);
    forall c | c in CantEspDrops
      ensures c in cols
    {
      DroppedPresent(left, rest, c);
    }
    forall c | c in DateKey || c in CantEspTotals
      ensures c in cols && c !in CantEspDrops
    {
      KeptPresent(left, rest, c);
    }
    forall x | x in cols && x !in CantEspDrops
      ensures x in DateKey || x in CantEspTotals
    {
      var c, fromLeft := MergedOnly(left, DateKey, rest, x);
      if fromLeft {
        LeftKept(left, rest, c);
      } else {
        RightKept(left, rest, c);
      }
    }
  }

  lemma DroppedPresent(left: seq<string>, rest: seq<string>, c: string)
    requires forall c :: c in left <==> c in DateKey || c in NationalFigures
    requires forall c :: c in rest <==> c == "casos-acumulado" || c == "casos"
    requires c in CantEspDrops
    ensures c in MergedColumns(left, DateKey, rest)
  {
    if c == "casos_x" {
      MergedHas(left, DateKey, rest, "casos");
      assert LeftName("casos", DateKey, rest) == c;
    } else if c == "casos_y" {
      MergedHas(left, DateKey, rest, "casos");
      assert RightName("casos", left) == c;
    } else {
      assert c in NationalFigures && c !in rest;
      MergedHas(left, DateKey, rest, c);
    }
  }

  lemma KeptPresent(left: seq<string>, rest: seq<string>, c: string)
    requires forall c :: c in left <==> c in DateKey || c in NationalFigures
    requires forall c :: c in rest <==> c == "casos-acumulado" || c == "casos"
    requires c in DateKey || c in CantEspTotals
    ensures c in MergedColumns(left, DateKey, rest) && c !in CantEspDrops
  {
    if c == "casos-acumulado_x" {
      assert "casos-acumulado" in NationalFigures;
      MergedHas(left, DateKey, rest, "casos-acumulado");
      assert LeftName("casos-acumulado", DateKey, rest) == c;
    } else if c == "casos-acumulado_y" {
      assert "casos-acumulado" in NationalFigures;
      MergedHas(left, DateKey, rest, "casos-acumulado");
      assert RightName("casos-acumulado", left) == c;
    } else {
      MergedHas(left, DateKey, rest, c);
    }
  }

  /** A right column under its merged name is dropped, or is the Cantabrian
      running total of cases. */
  lemma RightKept(left: seq<string>, rest: seq<string>, c: string)
    requires forall c :: c in left <==> c in DateKey || c in NationalFigures
    requires forall c :: c in rest <==> c == "casos-acumulado" || c == "casos"
    requires c in rest
    ensures var x := RightName(c, left); x in CantEspDrops || x in CantEspTotals
  {
    assert c in NationalFigures;
    if c == "casos" {
      assert RightName(c, left) == "casos_y";
    } else {
      assert RightName(c, left) == "casos-acumulado_y";
    }
  }

  /** A left column under its merged name is dropped, or is `fecha` or the
      national running total of cases. */
  lemma LeftKept(left: seq<string>, rest: seq<string>, c: string)
    requires forall c :: c in left <==> c in DateKey || c in NationalFigures
    requires forall c :: c in rest <==> c == "casos-acumulado" || c == "casos"
    requires c in left
    ensures var x := LeftName(c, DateKey, rest); x in CantEspDrops || x in DateKey || x in CantEspTotals
  {
    if c == "casos-acumulado" {
      assert LeftName(c, DateKey, rest) == "casos-acumulado_x";
    } else if c == "casos" {
      assert LeftName(c, DateKey, rest) == "casos_x";
    } else if c != "fecha" {
      assert c !in rest;
    }
  }

  /** The national frame holds `fecha` and its ten figures; the Cantabrian
      frame holds `fecha` and its running and daily cases, one row a date. */
  ghost predicate CantEspInputs(espana: Table<string>, casos: Table<string>) {
    Brings(espana, DateKey, NationalFigures) && Running(casos, "casos-acumulado", "casos")
  }

  /** `u` keeps the rows of `left` in order with their key `k`, holds the
      left cells of column `c` under `lc` and, under `rc`, the cells of `c`
      in the right row with the same keys (NaN when none has them). */
  ghost predicate Compares(left: Table<string>, right: Table<string>, keys: seq<string>, u: Table<string>,
                           k: string, c: string, lc: string, rc: string)
    requires WellFormed(left) && Sortable(right, keys) && WellFormed(u)
    requires (forall c :: c in keys ==> c in left.columns) && k in left.columns
    requires c in left.columns && c in right.columns
  {
    && |u.rows| == |left.rows|
    && k in u.columns && lc in u.columns && rc in u.columns
    && forall p :: 0 <= p < |left.rows| ==>
      && Cell(u, p, k) == Cell(left, p, k)
      && Cell(u, p, lc) == Cell(left, p, c)
      && Cell(u, p, rc) == Lookup(right, keys, Key(left, p, keys), c)
  }

  /** The national frame is the left one: `u` keeps its dates, holds its
      running total of cases under `esp` and, under `cant`, the Cantabrian one
      of the same date (NaN when Cantabria has no such date). */
  ghost predicate ComparesCases(espana: Table<string>, casos: Table<string>, u: Table<string>,
                                esp: string, cant: string)
    requires CantEspInputs(espana, casos) && WellFormed(u)
  {
    assert "casos-acumulado" in NationalFigures;
    Compares(espana, casos, DateKey, u, "fecha", "casos-acumulado", esp, cant)
  }

  lemma CantEspRest(casos: Table<string>)
    requires Running(casos, "casos-acumulado", "casos")
    ensures forall c :: c in Except(casos.columns, DateKey) <==> c == "casos-acumulado" || c == "casos"
  {
  }

  lemma CantEspMergeOk(espana: Table<string>, casos: Table<string>) returns (merged: Table<string>)
    requires CantEspInputs(espana, casos)
    ensures LeftMerge(espana, casos, DateKey) == Ok(merged) && WellFormed(merged)
    ensures merged.columns == MergedColumns(espana.columns, DateKey, Except(casos.columns, DateKey))
  {
    var rest := Except(casos.columns, DateKey);
    CantEspRest(casos);
    CantEspPlain(espana.columns, rest);
    MergedDistinct(espana.columns, DateKey, rest);
    merged := LeftMerge(espana, casos, DateKey).value;
  }

  /** The merge succeeds; the dropped names are among its columns and the
      others are `fecha` and the two suffixed totals, which compare the cases. */
  lemma CantEspMerge(espana: Table<string>, casos: Table<string>) returns (merged: Table<string>)
    requires CantEspInputs(espana, casos)
    ensures LeftMerge(espana, casos, DateKey) == Ok(merged) && WellFormed(merged)
    ensures CantEspMergedColumns(merged.columns)
    ensures ComparesCases(espana, casos, merged, "casos-acumulado_x", "casos-acumulado_y")
  {
    var rest := Except(casos.columns, DateKey);
    CantEspRest(casos);
    merged := CantEspMergeOk(espana, casos);
    CantEspMergedNames(espana.columns, rest);
    assert "casos-acumulado" in NationalFigures;
    CantEspMergeCells(espana, casos, merged);
  }

  lemma CantEspMergeCells(espana: Table<string>, casos: Table<string>, merged: Table<string>)
    requires WellFormed(espana) && WellFormed(casos) && Sortable(casos, DateKey) && UniqueKeys(casos, DateKey)
    requires "fecha" in espana.columns && "casos-acumulado" in espana.columns && "casos-acumulado" in casos.columns
    requires LeftMerge(espana, casos, DateKey) == Ok(merged)
    ensures WellFormed(merged)
    ensures Compares(espana, casos, DateKey, merged, "fecha", "casos-acumulado", "casos-acumulado_x", "casos-acumulado_y")
  {
    CasesSuffixed();
    SharedCells(espana, casos, DateKey, merged, "fecha", "casos-acumulado");
  }

  /** The two merged names of the running total of cases. */
  lemma CasesSuffixed()
    ensures "fecha" in DateKey && "casos-acumulado" !in DateKey
    ensures "casos-acumulado" + "_x" == "casos-acumulado_x" && "casos-acumulado" + "_y" == "casos-acumulado_y"
  {
  }

  /** A non-key column `c` of both frames is suffixed: `_x` holds the left
      cells, `_y` the matching right ones; a key `k` keeps the left cells. */
  lemma SharedCells(left: Table<string>, right: Table<string>, keys: seq<string>, m: Table<string>,
                    k: string, c: string)
    requires WellFormed(left) && WellFormed(right) && LeftMerge(left, right, keys) == Ok(m)
    requires Sortable(right, keys) && UniqueKeys(right, keys)
    requires k in keys && c in left.columns && c in right.columns && c !in keys
    ensures WellFormed(m) && k in left.columns && (forall c :: c in keys ==> c in left.columns)
    ensures Compares(left, right, keys, m, k, c, c + "_x", c + "_y")
  {
    var rest := Except(right.columns, keys);
    LeftMergeUnique(left, right, keys);
    assert LeftName(k, keys, rest) == k;
    assert LeftName(c, keys, rest) == c + "_x";
    assert RightName(c, left.columns) == c + "_y";
    MergedHas(left.columns, keys, rest, k);
    MergedHas(left.columns, keys, rest, c);
  }

  /** A table that carries the same three columns of `m` under names `k`,
      `lc2` and `rc2` compares the frames as `m` does. */
  lemma ComparesCarried(left: Table<string>, right: Table<string>, keys: seq<string>, m: Table<string>,
                        u: Table<string>, k: string, c: string, lc: string, rc: string, lc2: string, rc2: string)
    requires WellFormed(left) && Sortable(right, keys) && WellFormed(m) && WellFormed(u)
    requires (forall c :: c in keys ==> c in left.columns) && k in left.columns
    requires c in left.columns && c in right.columns
    requires Compares(left, right, keys, m, k, c, lc, rc)
    requires |u.rows| == |m.rows| && k in u.columns && lc2 in u.columns && rc2 in u.columns
    requires forall p :: 0 <= p < |m.rows| ==>
      && Cell(u, p, k) == Cell(m, p, k) && Cell(u, p, lc2) == Cell(m, p, lc) && Cell(u, p, rc2) == Cell(m, p, rc)
    ensures Compares(left, right, keys, u, k, c, lc2, rc2)
  {
  }

  lemma CantEspDropsApart()
    ensures Distinct(CantEspDrops)
    ensures Distinct(CantEspColumns)
    ensures RenamesTotals(CantEspNames, DateKey, CantEspTotals, CantEspColumns)
  {
    DistinctIntro(CantEspDrops);
    DistinctIntro(CantEspColumns);
  }

  /** The ten drops succeed and leave `fecha` and the two running totals of
      cases with their cells. */
  lemma CantEspDrop(merged: Table<string>) returns (dropped: Table<string>)
    requires WellFormed(merged) && CantEspMergedColumns(merged.columns)
    ensures DropAll(merged, CantEspDrops) == Ok(dropped) && WellFormed(dropped)
    ensures DroppedFrom(merged, CantEspDrops, dropped)
    ensures forall c :: c in dropped.columns <==> c in DateKey || c in CantEspTotals
  {
    CantEspDropsApart();
    DropAllCells(merged, CantEspDrops);
    dropped := DropAll(merged, CantEspDrops).value;
  }

  /** The merge and the drops: the two running totals of cases, still under
      their suffixed names, beside the date. */
  lemma CantEspDropped(espana: Table<string>, casos: Table<string>) returns (merged: Table<string>, dropped: Table<string>)
    requires CantEspInputs(espana, casos)
    ensures LeftMerge(espana, casos, DateKey) == Ok(merged) && WellFormed(merged)
    ensures DropAll(merged, CantEspDrops) == Ok(dropped) && WellFormed(dropped)
    ensures forall c :: c in dropped.columns <==> c in DateKey || c in CantEspTotals
    ensures ComparesCases(espana, casos, dropped, "casos-acumulado_x", "casos-acumulado_y")
  {
    merged := CantEspMerge(espana, casos);
    dropped := CantEspDrop(merged);
    assert "casos-acumulado" in NationalFigures;
    var x, y := "casos-acumulado_x", "casos-acumulado_y";
    forall p | 0 <= p < |merged.rows|
      ensures Cell(dropped, p, "fecha") == Cell(merged, p, "fecha")
      ensures Cell(dropped, p, x) == Cell(merged, p, x) && Cell(dropped, p, y) == Cell(merged, p, y)
    {
      assert x in dropped.columns && y in dropped.columns;
    }
    ComparesCarried(espana, casos, DateKey, merged, dropped, "fecha", "casos-acumulado", x, y, x, y);
  }

  /** The rename gives the two running totals of cases their new names. */
  lemma CantEspRenamed(dropped: Table<string>) returns (u: Table<string>)
    requires WellFormed(dropped) && forall c :: c in dropped.columns <==> c in DateKey || c in CantEspTotals
    ensures RenameColumns(dropped, CantEspNames) == Ok(u) && WellFormed(u) && |u.rows| == |dropped.rows|
    ensures forall c :: c in u.columns <==> c in DateKey || c in CantEspColumns
    ensures forall p :: 0 <= p < |dropped.rows| ==>
      && Cell(u, p, "fecha") == Cell(dropped, p, "fecha")
      && Cell(u, p, "casos-espana") == Cell(dropped, p, "casos-acumulado_x")
      && Cell(u, p, "casos-cantabria") == Cell(dropped, p, "casos-acumulado_y")
  {
    CantEspDropsApart();
    u := RenameTotals(DateKey, CantEspTotals, CantEspColumns, CantEspNames, dropped);
    forall p | 0 <= p < |dropped.rows|
      ensures Cell(u, p, "casos-espana") == Cell(dropped, p, "casos-acumulado_x")
      ensures Cell(u, p, "casos-cantabria") == Cell(dropped, p, "casos-acumulado_y")
    {
      assert CantEspTotals[0] == "casos-acumulado_x" && CantEspColumns[0] == "casos-espana";
      assert CantEspTotals[1] == "casos-acumulado_y" && CantEspColumns[1] == "casos-cantabria";
    }
  }

  /** With the national frame holding the date and its ten figures, and the
      Cantabrian cases one row a date, `cant_esp` succeeds: it has exactly the
      columns `fecha`, `casos-espana` and `casos-cantabria`, keeps the national
      rows in order with their dates and running totals of cases, and beside
      each the Cantabrian running total of that date, or NaN. */
  lemma CantEspCells(espana: Table<string>, casos: Table<string>) returns (u: Table<string>)
    requires CantEspInputs(espana, casos)
    ensures CantEsp(espana, casos) == Ok(u) && WellFormed(u)
    ensures forall c :: c in u.columns <==> c in DateKey || c in CantEspColumns
    ensures ComparesCases(espana, casos, u, "casos-espana", "casos-cantabria")
  {
    var merged, dropped := CantEspDropped(espana, casos);
    u := CantEspRenamed(dropped);
    assert "casos-acumulado" in NationalFigures;
    ComparesCarried(espana, casos, DateKey, dropped, u, "fecha", "casos-acumulado",
                    "casos-acumulado_x", "casos-acumulado_y", "casos-espana", "casos-cantabria");
  }
}
