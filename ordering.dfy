/** How pandas compares cells when it sorts, takes a maximum or matches merge
    keys: numbers by value (an int equals the float with the same value), text in
    Python's string order, and NaN after everything else. */
module Ordering {
  import opened Text
  import opened Frames

  /** The two cells are equal as pandas compares them; two NaN keys match. */
  predicate Same(a: Value, b: Value) {
    if IsNumber(a) && IsNumber(b) then AsReal(a) == AsReal(b) else a == b
  }

  /** `a` sorts strictly before `b`: numbers before text, NaN last. */
  predicate ValueLess(a: Value, b: Value) {
    if a.Missing? then false
    else if b.Missing? then true
    else if a.Str? && b.Str? then Less(a.s, b.s)
    else if a.Str? then false
    else if b.Str? then true
    else AsReal(a) < AsReal(b)
  }

  lemma SameIsEquivalence(a: Value, b: Value, c: Value)
    ensures Same(a, a)
    ensures Same(a, b) ==> Same(b, a)
    ensures Same(a, b) && Same(b, c) ==> Same(a, c)
  {
  }

  /** The cell order is a strict total order up to `Same`. */
  lemma ValueLessTotal(a: Value, b: Value)
    ensures !ValueLess(a, a)
    ensures ValueLess(a, b) ==> !ValueLess(b, a) && !Same(a, b)
    ensures Same(a, b) || ValueLess(a, b) || ValueLess(b, a)
  {
    if a.Str? && b.Str? {
      LessTrichotomy(a.s, b.s);
    }
    if a.Str? {
      LessIrreflexive(a.s);
    }
  }

  lemma ValueLessTransitive(a: Value, b: Value, c: Value)
    requires ValueLess(a, b) && ValueLess(b, c)
    ensures ValueLess(a, c)
  {
    if a.Str? && b.Str? && c.Str? {
      LessTransitive(a.s, b.s, c.s);
    }
  }

  /** `ValueLess` does not tell apart cells that are the `Same`. */
  lemma ValueLessRespectsSame(a: Value, b: Value, c: Value)
    requires Same(a, b)
    ensures ValueLess(a, c) <==> ValueLess(b, c)
    ensures ValueLess(c, a) <==> ValueLess(c, b)
  {
  }

  /** Lexicographic order on equally long key tuples, as `sort_values(by=[...])`. */
  predicate KeyLess(a: seq<Value>, b: seq<Value>)
    requires |a| == |b|
  {
    |a| > 0 && (ValueLess(a[0], b[0]) || (Same(a[0], b[0]) && KeyLess(a[1..], b[1..])))
  }

  predicate KeySame(a: seq<Value>, b: seq<Value>) {
    |a| == |b| && forall k :: 0 <= k < |a| ==> Same(a[k], b[k])
  }

  lemma {:induction false} KeyLessIrreflexive(a: seq<Value>)
    ensures !KeyLess(a, a)
  {
    if |a| > 0 {
      ValueLessTotal(a[0], a[0]);
      KeyLessIrreflexive(a[1..]);
    }
  }

  lemma {:induction false} KeyLessTransitive(a: seq<Value>, b: seq<Value>, c: seq<Value>)
    requires |a| == |b| == |c|
    requires KeyLess(a, b) && KeyLess(b, c)
    ensures KeyLess(a, c)
  {
    if ValueLess(a[0], b[0]) && ValueLess(b[0], c[0]) {
      ValueLessTransitive(a[0], b[0], c[0]);
    } else if ValueLess(a[0], b[0]) {
      ValueLessRespectsSame(b[0], c[0], a[0]);
    } else if ValueLess(b[0], c[0]) {
      SameIsEquivalence(a[0], b[0], c[0]);
      ValueLessRespectsSame(b[0], a[0], c[0]);
    } else {
      SameIsEquivalence(a[0], b[0], c[0]);
      KeyLessTransitive(a[1..], b[1..], c[1..]);
    }
  }

  /** Any two key tuples are ordered one way or the other, or match field by field. */
  lemma {:induction false} KeyLessTotal(a: seq<Value>, b: seq<Value>)
    requires |a| == |b|
    ensures KeySame(a, b) || KeyLess(a, b) || KeyLess(b, a)
    ensures KeyLess(a, b) ==> !KeyLess(b, a) && !KeySame(a, b)
  {
    if |a| > 0 {
      ValueLessTotal(a[0], b[0]);
      ValueLessTotal(b[0], a[0]);
      SameIsEquivalence(a[0], b[0], a[0]);
      KeyLessTotal(a[1..], b[1..]);
      if KeySame(a[1..], b[1..]) && Same(a[0], b[0]) {
        forall k | 0 <= k < |a|
          ensures Same(a[k], b[k])
        {
          if k > 0 { assert a[k] == a[1..][k - 1] && b[k] == b[1..][k - 1]; }
        }
      }
      if KeySame(a, b) {
        assert KeySame(a[1..], b[1..]) by {
          forall k | 0 <= k < |a| - 1
            ensures Same(a[1..][k], b[1..][k])
          {
            assert a[1..][k] == a[k + 1] && b[1..][k] == b[k + 1];
          }
        }
      }
    }
  }

  /** `KeyLess` does not tell apart key tuples that match field by field. */
  lemma {:induction false} KeyLessRespectsSame(a: seq<Value>, b: seq<Value>, c: seq<Value>)
    requires |a| == |b| == |c| && KeySame(a, b) && KeyLess(a, c)
    ensures KeyLess(b, c)
  {
    assert Same(a[0], b[0]);
    if ValueLess(a[0], c[0]) {
      ValueLessRespectsSame(a[0], b[0], c[0]);
    } else {
      SameIsEquivalence(b[0], a[0], c[0]);
      SameIsEquivalence(a[0], b[0], c[0]);
      assert KeySame(a[1..], b[1..]) by {
        forall k | 0 <= k < |a| - 1
          ensures Same(a[1..][k], b[1..][k])
        {
          assert a[1..][k] == a[k + 1] && b[1..][k] == b[k + 1];
        }
      }
      KeyLessRespectsSame(a[1..], b[1..], c[1..]);
    }
  }

  // ---------------------------------------------------------------------------
  // A stable sort of row positions by the cells of some columns.

  /** The sort key of row position `p`: its cells in the `by` columns. */
  function Key<N(==, !new)>(t: Table<N>, p: nat, keys: seq<N>): (k: seq<Value>)
    requires WellFormed(t) && p < |t.rows| && forall c :: c in keys ==> c in t.columns
    ensures |k| == |keys| && forall j :: 0 <= j < |keys| ==> k[j] == Cell(t, p, keys[j])
  {
    seq(|keys|, j requires 0 <= j < |keys| => Cell(t, p, keys[j]))
  }

  predicate Sortable<N(==, !new)>(t: Table<N>, keys: seq<N>) {
    WellFormed(t) && forall c :: c in keys ==> c in t.columns
  }

  predicate InRange<N(==, !new)>(t: Table<N>, ps: seq<nat>) {
    forall i :: 0 <= i < |ps| ==> ps[i] < |t.rows|
  }

  /** The row at `ps[j]` does not have a smaller key than the one at `ps[i]`. */
  predicate InOrder<N(==, !new)>(t: Table<N>, keys: seq<N>, ps: seq<nat>, i: int, j: int)
    requires Sortable(t, keys) && InRange(t, ps)
  {
    0 <= i < j < |ps| && !KeyLess(Key(t, ps[j], keys), Key(t, ps[i], keys))
  }

  /** No row comes after one whose key is larger. */
  predicate SortedBy<N(==, !new)>(t: Table<N>, keys: seq<N>, ps: seq<nat>)
    requires Sortable(t, keys) && InRange(t, ps)
  {
    forall i, j {:trigger InOrder(t, keys, ps, i, j)} :: 0 <= i < j < |ps| ==> InOrder(t, keys, ps, i, j)
  }

  /** Put row position `x` after every position whose key is not larger. */
  function Insert<N(==, !new)>(t: Table<N>, keys: seq<N>, x: nat, ps: seq<nat>): (r: seq<nat>)
    requires Sortable(t, keys) && x < |t.rows| && InRange(t, ps)
    ensures |r| == |ps| + 1 && InRange(t, r) && multiset(r) == multiset(ps) + multiset{x}
  {
    if |ps| == 0 then [x]
    else if KeyLess(Key(t, x, keys), Key(t, ps[0], keys)) then [x] + ps
    else
      var r := [ps[0]] + Insert(t, keys, x, ps[1..]);
      assert ps == [ps[0]] + ps[1..];
      r
  }

  /** The stable sort `sort_values` performs, on row positions. */
  function Sort<N(==, !new)>(t: Table<N>, keys: seq<N>, ps: seq<nat>): (r: seq<nat>)
    requires Sortable(t, keys) && InRange(t, ps)
    ensures |r| == |ps| && InRange(t, r) && multiset(r) == multiset(ps)
  {
    if |ps| == 0 then []
    else
      var r := Insert(t, keys, ps[|ps| - 1], Sort(t, keys, ps[..|ps| - 1]));
      assert ps == ps[..|ps| - 1] + [ps[|ps| - 1]];
      r
  }

  /** Every position `Insert` places is `x` or one of `ps`. */
  lemma {:induction false} InsertFrom<N(!new)>(t: Table<N>, keys: seq<N>, x: nat, ps: seq<nat>)
    requires Sortable(t, keys) && x < |t.rows| && InRange(t, ps)
    ensures forall y :: y in Insert(t, keys, x, ps) ==> y == x || y in ps
  {
    if |ps| > 0 && !KeyLess(Key(t, x, keys), Key(t, ps[0], keys)) {
      InsertFrom(t, keys, x, ps[1..]);
    }
  }

  lemma SortedTail<N(!new)>(t: Table<N>, keys: seq<N>, ps: seq<nat>)
    requires Sortable(t, keys) && InRange(t, ps) && |ps| > 0 && SortedBy(t, keys, ps)
    ensures SortedBy(t, keys, ps[1..])
  {
    forall i, j | 0 <= i < j < |ps| - 1
      ensures InOrder(t, keys, ps[1..], i, j)
    {
      assert InOrder(t, keys, ps, i + 1, j + 1);
      assert ps[1..][j] == ps[j + 1] && ps[1..][i] == ps[i + 1];
    }
  }

  /** A position whose key is below the first key of a sorted sequence can
      go in front of it. */
  lemma InsertFront<N(!new)>(t: Table<N>, keys: seq<N>, x: nat, ps: seq<nat>)
    requires Sortable(t, keys) && x < |t.rows| && InRange(t, ps) && SortedBy(t, keys, ps)
    requires |ps| > 0 && KeyLess(Key(t, x, keys), Key(t, ps[0], keys))
    ensures InRange(t, [x] + ps) && SortedBy(t, keys, [x] + ps)
  {
    var r := [x] + ps;
    forall i, j | 0 <= i < j < |r|
      ensures InOrder(t, keys, r, i, j)
    {
      if i == 0 {
        var y := ps[j - 1];
        if KeyLess(Key(t, y, keys), Key(t, x, keys)) {
          if j - 1 == 0 {
            KeyLessTransitive(Key(t, x, keys), Key(t, y, keys), Key(t, x, keys));
          } else {
            assert InOrder(t, keys, ps, 0, j - 1);
            KeyLessTransitive(Key(t, y, keys), Key(t, x, keys), Key(t, ps[0], keys));
          }
          KeyLessIrreflexive(Key(t, x, keys));
        }
      } else {
        assert InOrder(t, keys, ps, i - 1, j - 1);
        assert r[i] == ps[i - 1] && r[j] == ps[j - 1];
      }
    }
  }

  /** The first position of a sorted sequence stays in front when `x`, whose
      key is not below it, is inserted into the rest. */
  lemma InsertBehind<N(!new)>(t: Table<N>, keys: seq<N>, x: nat, ps: seq<nat>)
    requires Sortable(t, keys) && x < |t.rows| && InRange(t, ps) && SortedBy(t, keys, ps)
    requires |ps| > 0 && !KeyLess(Key(t, x, keys), Key(t, ps[0], keys))
    requires SortedBy(t, keys, Insert(t, keys, x, ps[1..]))
    ensures SortedBy(t, keys, Insert(t, keys, x, ps))
  {
    var rest := Insert(t, keys, x, ps[1..]);
    assert Insert(t, keys, x, ps) == [ps[0]] + rest;
    InsertFrom(t, keys, x, ps[1..]);
    forall y | y in rest
      ensures y < |t.rows| && !KeyLess(Key(t, y, keys), Key(t, ps[0], keys))
    {
      NotBeforeFirst(t, keys, x, ps, y);
    }
    ConsSorted(t, keys, ps[0], rest);
  }

  /** A position whose key is not above any key of a sorted sequence can go
      in front of it. */
  lemma ConsSorted<N(!new)>(t: Table<N>, keys: seq<N>, a: nat, rest: seq<nat>)
    requires Sortable(t, keys) && a < |t.rows| && InRange(t, rest) && SortedBy(t, keys, rest)
    requires forall y :: y in rest ==> y < |t.rows| && !KeyLess(Key(t, y, keys), Key(t, a, keys))
    ensures InRange(t, [a] + rest) && SortedBy(t, keys, [a] + rest)
  {
    var r := [a] + rest;
    forall i, j | 0 <= i < j < |r|
      ensures InOrder(t, keys, r, i, j)
    {
      assert r[j] == rest[j - 1];
      if i == 0 {
        assert r[j] in rest;
      } else {
        assert r[i] == rest[i - 1];
        assert InOrder(t, keys, rest, i - 1, j - 1);
      }
    }
  }

  /** `x`, or any later position of a sorted sequence, has a key no smaller
      than its first position's. */
  lemma NotBeforeFirst<N(!new)>(t: Table<N>, keys: seq<N>, x: nat, ps: seq<nat>, y: nat)
    requires Sortable(t, keys) && x < |t.rows| && InRange(t, ps) && SortedBy(t, keys, ps)
    requires |ps| > 0 && !KeyLess(Key(t, x, keys), Key(t, ps[0], keys))
    requires y == x || y in ps[1..]
    ensures y < |t.rows| && !KeyLess(Key(t, y, keys), Key(t, ps[0], keys))
  {
    if y != x {
      var tail := ps[1..];
      var k :| 0 <= k < |tail| && tail[k] == y;
      assert ps[k + 1] == tail[k];
      assert InOrder(t, keys, ps, 0, k + 1);
    }
  }

  lemma {:induction false} InsertSorted<N(!new)>(t: Table<N>, keys: seq<N>, x: nat, ps: seq<nat>)
    requires Sortable(t, keys) && x < |t.rows| && InRange(t, ps) && SortedBy(t, keys, ps)
    ensures SortedBy(t, keys, Insert(t, keys, x, ps))
  {
    if |ps| == 0 {
    } else if KeyLess(Key(t, x, keys), Key(t, ps[0], keys)) {
      InsertFront(t, keys, x, ps);
    } else {
      SortedTail(t, keys, ps);
      InsertSorted(t, keys, x, ps[1..]);
      InsertBehind(t, keys, x, ps);
    }
  }

  lemma {:induction false} SortSorted<N(!new)>(t: Table<N>, keys: seq<N>, ps: seq<nat>)
    requires Sortable(t, keys) && InRange(t, ps)
    ensures SortedBy(t, keys, Sort(t, keys, ps))
  {
    if |ps| > 0 {
      SortSorted(t, keys, ps[..|ps| - 1]);
      InsertSorted(t, keys, ps[|ps| - 1], Sort(t, keys, ps[..|ps| - 1]));
    }
  }

  /** The positions at `i` and `j` keep their relative order when their keys match. */
  predicate TieKept<N(==, !new)>(t: Table<N>, keys: seq<N>, ps: seq<nat>, i: int, j: int)
    requires Sortable(t, keys) && InRange(t, ps)
  {
    0 <= i < j < |ps| && (KeySame(Key(t, ps[i], keys), Key(t, ps[j], keys)) ==> ps[i] < ps[j])
  }

  /** Positions with matching keys appear in increasing order. */
  predicate Stable<N(==, !new)>(t: Table<N>, keys: seq<N>, ps: seq<nat>)
    requires Sortable(t, keys) && InRange(t, ps)
  {
    forall i, j {:trigger TieKept(t, keys, ps, i, j)} :: 0 <= i < j < |ps| ==> TieKept(t, keys, ps, i, j)
  }

  lemma StableTail<N(!new)>(t: Table<N>, keys: seq<N>, ps: seq<nat>)
    requires Sortable(t, keys) && InRange(t, ps) && |ps| > 0 && Stable(t, keys, ps)
    ensures Stable(t, keys, ps[1..])
  {
    forall i, j | 0 <= i < j < |ps| - 1
      ensures TieKept(t, keys, ps[1..], i, j)
    {
      assert TieKept(t, keys, ps, i + 1, j + 1);
      assert ps[1..][j] == ps[j + 1] && ps[1..][i] == ps[i + 1];
    }
  }

  /** A position whose key is below the first key of a sorted sequence has
      a key below every key of it, so it matches none of them. */
  lemma FrontMatchesNone<N(!new)>(t: Table<N>, keys: seq<N>, x: nat, ps: seq<nat>, k: nat)
    requires Sortable(t, keys) && x < |t.rows| && InRange(t, ps) && SortedBy(t, keys, ps)
    requires k < |ps| && KeyLess(Key(t, x, keys), Key(t, ps[0], keys))
    ensures !KeySame(Key(t, x, keys), Key(t, ps[k], keys))
  {
    var kx, k0, ky := Key(t, x, keys), Key(t, ps[0], keys), Key(t, ps[k], keys);
    KeyLessIrreflexive(k0);
    if k > 0 {
      assert InOrder(t, keys, ps, 0, k);
    }
    if KeySame(kx, ky) {
      KeyLessRespectsSame(kx, ky, k0);
    }
  }

  /** Inserting a position later than every position of a sorted, stable
      sequence keeps it stable: `Insert` goes past matching keys. */
  lemma {:induction false} InsertStable<N(!new)>(t: Table<N>, keys: seq<N>, x: nat, ps: seq<nat>)
    requires Sortable(t, keys) && x < |t.rows| && InRange(t, ps) && SortedBy(t, keys, ps) && Stable(t, keys, ps)
    requires forall k :: 0 <= k < |ps| ==> ps[k] < x
    ensures Stable(t, keys, Insert(t, keys, x, ps))
  {
    if |ps| == 0 {
    } else if KeyLess(Key(t, x, keys), Key(t, ps[0], keys)) {
      forall y | y in ps
        ensures y < |t.rows| && (KeySame(Key(t, x, keys), Key(t, y, keys)) ==> x < y)
      {
        var k :| 0 <= k < |ps| && ps[k] == y;
        FrontMatchesNone(t, keys, x, ps, k);
      }
      ConsStable(t, keys, x, ps);
    } else {
      var rest := Insert(t, keys, x, ps[1..]);
      assert Insert(t, keys, x, ps) == [ps[0]] + rest;
      SortedTail(t, keys, ps);
      StableTail(t, keys, ps);
      InsertStable(t, keys, x, ps[1..]);
      InsertFrom(t, keys, x, ps[1..]);
      forall y | y in rest
        ensures y < |t.rows| && (KeySame(Key(t, ps[0], keys), Key(t, y, keys)) ==> ps[0] < y)
      {
        if y != x {
          var k :| 1 <= k < |ps| && ps[k] == y;
          assert TieKept(t, keys, ps, 0, k);
        }
      }
      ConsStable(t, keys, ps[0], rest);
    }
  }

  /** A position below every position of a stable sequence whose key it
      matches can go in front of it. */
  lemma ConsStable<N(!new)>(t: Table<N>, keys: seq<N>, a: nat, rest: seq<nat>)
    requires Sortable(t, keys) && a < |t.rows| && InRange(t, rest) && Stable(t, keys, rest)
    requires forall y :: y in rest ==> y < |t.rows| && (KeySame(Key(t, a, keys), Key(t, y, keys)) ==> a < y)
    ensures InRange(t, [a] + rest) && Stable(t, keys, [a] + rest)
  {
    var r := [a] + rest;
    forall i, j | 0 <= i < j < |r|
      ensures TieKept(t, keys, r, i, j)
    {
      assert r[j] == rest[j - 1];
      if i == 0 {
        assert r[j] in rest;
      } else {
        assert r[i] == rest[i - 1];
        assert TieKept(t, keys, rest, i - 1, j - 1);
      }
    }
  }

  /** Sorting positions given in increasing order keeps matching keys in
      that order. */
  lemma {:induction false} SortStable<N(!new)>(t: Table<N>, keys: seq<N>, ps: seq<nat>)
    requires Sortable(t, keys) && InRange(t, ps)
    requires forall i, j :: 0 <= i < j < |ps| ==> ps[i] < ps[j]
    ensures Stable(t, keys, Sort(t, keys, ps))
  {
    if |ps| > 0 {
      var init, x := ps[..|ps| - 1], ps[|ps| - 1];
      var s := Sort(t, keys, init);
      SortStable(t, keys, init);
      SortSorted(t, keys, init);
      forall k | 0 <= k < |s|
        ensures s[k] < x
      {
        assert s[k] in multiset(init);
        var m :| 0 <= m < |init| && init[m] == s[k];
      }
      InsertStable(t, keys, x, s);
    }
  }

  lemma {:induction false} RangeCount(n: nat, x: nat)
    ensures multiset(Range(n))[x] == if x < n then 1 else 0
  {
    if n > 0 {
      assert Range(n) == Range(n - 1) + [n - 1];
      RangeCount(n - 1, x);
    }
  }

  /** A rearrangement of the positions 0..n-1 repeats none and stays below n. */
  lemma PermutationDistinct(s: seq<nat>, n: nat)
    requires multiset(s) == multiset(Range(n))
    ensures Distinct(s) && forall i :: 0 <= i < |s| ==> s[i] < n
  {
    forall i | 0 <= i < |s|
      ensures s[i] < n
    {
      assert s[i] in multiset(s);
      RangeCount(n, s[i]);
    }
    forall i, j | 0 <= i < j < |s|
      ensures s[i] != s[j]
    {
      var v := s[i];
      RangeCount(n, v);
      assert s == s[..j] + s[j..];
      assert s[..j][i] == v;
      assert multiset(s[..j])[v] >= 1;
      assert multiset(s)[v] == multiset(s[..j])[v] + multiset(s[j..])[v];
      assert s[j..][0] == s[j];
      assert multiset(s[j..])[s[j]] >= 1;
    }
    DistinctIntro(s);
  }

  /** The rows at distinct positions `ps`, with their labels, form a table. */
  lemma SelectDistinctWellFormed<N(!new)>(t: Table<N>, ps: seq<nat>)
    requires WellFormed(t) && InRange(t, ps) && Distinct(ps)
    ensures WellFormed(Select(t, ps))
  {
    var u := Select(t, ps);
    forall i, j | 0 <= i < j < |ps|
      ensures Apart(u.index, i, j)
    {
      DistinctAt(ps, i, j);
      DistinctAt(t.index, ps[i], ps[j]);
    }
  }

  /** `df.sort_values(by=keys)`: the same rows, each with its label, reordered
      so that no row follows one with a larger key and rows with matching keys
      keep their order; KeyError for a missing key column. */
  function SortValues<N(==, !new)>(t: Table<N>, keys: seq<N>): (r: Result<Table<N>>)
    requires WellFormed(t)
    ensures r.Ok? <==> forall c :: c in keys ==> c in t.columns
    ensures r.Ok? ==> WellFormed(r.value) && r.value.columns == t.columns && |r.value.rows| == |t.rows|
    ensures r.Ok? ==> exists perm: seq<nat> :: SortsRows(t, keys, perm) && r.value == Select(t, perm)
  {
    var absent := FirstAbsent(keys, t.columns);
    if absent.Some? then Err(KeyError)
    else
      var perm := Sort(t, keys, Range(|t.rows|));
      SortSorted(t, keys, Range(|t.rows|));
      SortStable(t, keys, Range(|t.rows|));
      PermutationDistinct(perm, |t.rows|);
      SelectDistinctWellFormed(t, perm);
      Ok(Select(t, perm))
  }

  /** `perm` lists every row position once, in key order, with matching
      keys in their original order. */
  predicate SortsRows<N(==, !new)>(t: Table<N>, keys: seq<N>, perm: seq<nat>)
    requires Sortable(t, keys)
  {
    && multiset(perm) == multiset(Range(|t.rows|)) && Distinct(perm) && InRange(t, perm)
    && SortedBy(t, keys, perm) && Stable(t, keys, perm)
  }

  /** The sorted table's own rows are in key order. */
  lemma SortValuesOrdered<N(!new)>(t: Table<N>, keys: seq<N>)
    requires WellFormed(t) && SortValues(t, keys).Ok?
    ensures var u := SortValues(t, keys).value;
      Sortable(u, keys) && forall i, j :: 0 <= i < j < |u.rows| ==> !KeyLess(Key(u, j, keys), Key(u, i, keys))
  {
    var u := SortValues(t, keys).value;
    var perm: seq<nat> :| SortsRows(t, keys, perm) && u == Select(t, perm);
    forall i, j | 0 <= i < j < |u.rows|
      ensures !KeyLess(Key(u, j, keys), Key(u, i, keys))
    {
      assert InOrder(t, keys, perm, i, j);
      assert Key(u, j, keys) == Key(t, perm[j], keys);
      assert Key(u, i, keys) == Key(t, perm[i], keys);
    }
  }

  /** The elements at positions `ps`, in that order. */
  function At<T>(s: seq<T>, ps: seq<nat>): (r: seq<T>)
    requires forall i :: 0 <= i < |ps| ==> ps[i] < |s|
    ensures |r| == |ps| && forall i :: 0 <= i < |ps| ==> r[i] == s[ps[i]]
  {
    seq(|ps|, i requires 0 <= i < |ps| => s[ps[i]])
  }

  lemma AtAppend<T>(s: seq<T>, a: seq<nat>, b: seq<nat>)
    requires forall i :: 0 <= i < |a| ==> a[i] < |s|
    requires forall i :: 0 <= i < |b| ==> b[i] < |s|
    ensures forall i :: 0 <= i < |a + b| ==> (a + b)[i] < |s|
    ensures At(s, a + b) == At(s, a) + At(s, b)
  {
  }

  /** Positions that are a rearrangement of each other pick the same elements,
      as many times each. */
  lemma {:induction false} AtRearranged<T>(s: seq<T>, p: seq<nat>, q: seq<nat>)
    requires forall i :: 0 <= i < |p| ==> p[i] < |s|
    requires forall i :: 0 <= i < |q| ==> q[i] < |s|
    requires multiset(p) == multiset(q)
    ensures multiset(At(s, p)) == multiset(At(s, q))
    decreases |p|
  {
    if |p| == 0 {
      assert |q| == |multiset(q)| == 0;
    } else {
      var n := |p| - 1;
      var x := p[n];
      assert x in multiset(q);
      var k :| 0 <= k < |q| && q[k] == x;
      var init, rest := p[..n], q[..k] + q[k + 1..];
      assert p[..n] + p[n + 1..] == init;
      AtRemove(s, p, n);
      AtRemove(s, q, k);
      assert multiset(init) == multiset(rest) by {
        Remove(p, n);
        Remove(q, k);
        assert multiset(init) == multiset(p) - multiset{x};
        assert multiset(rest) == multiset(q) - multiset{x};
      }
      AtRearranged(s, init, rest);
    }
  }

  lemma Remove<T>(s: seq<T>, k: nat)
    requires k < |s|
    ensures multiset(s) == multiset(s[..k] + s[k + 1..]) + multiset{s[k]}
  {
    assert s == s[..k] + [s[k]] + s[k + 1..];
  }

  lemma AtRemove<T>(s: seq<T>, p: seq<nat>, k: nat)
    requires forall i :: 0 <= i < |p| ==> p[i] < |s|
    requires k < |p|
    ensures var rest := p[..k] + p[k + 1..];
      (forall i :: 0 <= i < |rest| ==> rest[i] < |s|)
      && multiset(At(s, p)) == multiset(At(s, rest)) + multiset{s[p[k]]}
  {
    var rest := p[..k] + p[k + 1..];
    assert At(s, rest) == At(s, p)[..k] + At(s, p)[k + 1..];
    Remove(At(s, p), k);
  }

  /** The sort is stable: of two sorted rows with matching keys, the earlier
      one came from an earlier row of the table. */
  lemma SortValuesStable<N(!new)>(t: Table<N>, keys: seq<N>)
    requires WellFormed(t) && SortValues(t, keys).Ok?
    ensures var u := SortValues(t, keys).value;
      && Sortable(u, keys) && Sortable(t, keys)
      && exists perm: seq<nat> ::
           && |perm| == |u.rows| && InRange(t, perm)
           && (forall i :: 0 <= i < |u.rows| ==> u.rows[i] == t.rows[perm[i]])
           && forall i, j :: 0 <= i < j < |u.rows| && KeySame(Key(u, i, keys), Key(u, j, keys)) ==> perm[i] < perm[j]
  {
    var u := SortValues(t, keys).value;
    var perm: seq<nat> :| SortsRows(t, keys, perm) && u == Select(t, perm);
    forall i, j | 0 <= i < j < |u.rows| && KeySame(Key(u, i, keys), Key(u, j, keys))
      ensures perm[i] < perm[j]
    {
      assert TieKept(t, keys, perm, i, j);
      assert Key(u, j, keys) == Key(t, perm[j], keys);
      assert Key(u, i, keys) == Key(t, perm[i], keys);
    }
  }

  /** `sort_values` only reorders: it returns every row as many times as the
      table holds it. */
  lemma SortValuesPermutes<N(!new)>(t: Table<N>, keys: seq<N>)
    requires WellFormed(t) && SortValues(t, keys).Ok?
    ensures multiset(SortValues(t, keys).value.rows) == multiset(t.rows)
  {
    var u := SortValues(t, keys).value;
    var perm: seq<nat> :| SortsRows(t, keys, perm) && u == Select(t, perm);
    assert u.rows == At(t.rows, perm);
    assert t.rows == At(t.rows, Range(|t.rows|));
    AtRearranged(t.rows, perm, Range(|t.rows|));
  }

  /** Sorting on a table's first two columns: of two rows in order, the later
      one's first cell is not smaller, and where the first cells match, its
      second cell is not smaller either. */
  lemma LeadingPair<N(!new)>(u: Table<N>, i: nat, j: nat)
    requires WellFormed(u) && |u.columns| >= 2 && i < |u.rows| && j < |u.rows|
    requires !KeyLess(Key(u, j, u.columns[..2]), Key(u, i, u.columns[..2]))
    ensures !ValueLess(u.rows[j][0], u.rows[i][0])
    ensures Same(u.rows[i][0], u.rows[j][0]) ==> !ValueLess(u.rows[j][1], u.rows[i][1])
  {
    var kj, ki := Key(u, j, u.columns[..2]), Key(u, i, u.columns[..2]);
    PositionOfDistinct(u.columns, 0);
    PositionOfDistinct(u.columns, 1);
    assert kj == [u.rows[j][0], u.rows[j][1]] && ki == [u.rows[i][0], u.rows[i][1]];
    SameIsEquivalence(u.rows[i][0], u.rows[j][0], u.rows[j][0]);
    assert kj[1..] == [u.rows[j][1]] && ki[1..] == [u.rows[i][1]];
  }

  /** An element of a rearranged sequence sits somewhere in the original. */
  lemma Rearranged<T>(a: seq<T>, b: seq<T>, q: nat) returns (q': nat)
    requires multiset(a) == multiset(b) && q < |a|
    ensures q' < |b| && b[q'] == a[q]
  {
    assert a[q] in multiset(b);
    q' :| 0 <= q' < |b| && b[q'] == a[q];
  }
}
