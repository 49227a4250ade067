/** `select` and `orderby` of pkg/dbtable/dbms.py. `select` builds a new
    table whose columns are the kept columns followed by computed ones, and
    fills it by inserting, for every row, the kept cells and the computed
    values; `orderby` is a `select` of every column followed by a stable
    sort of the copy's rows. */
module Selection {
  import opened Results
  import opened Seqs
  import opened PyValues
  import opened Rows
  import opened Tables
  import opened Sorting

  /** An entry of `additional_cols`: the new column's cell is computed from
      the row. */
  type Computed = Derived<Row -> Value>

  /** Every kept column exists, so `col2type` finds each of them. */
  predicate KnownColumns(t: Table, keep: seq<string>)
  {
    forall j | 0 <= j < |keep| :: keep[j] in t.columns
  }

  /** `[self.col2type(col) for col in keep_cols]`. */
  function KeepTypes(t: Table, keep: seq<string>): (ts: seq<ColType>)
    requires |t.columns| == |t.types|
    requires KnownColumns(t, keep)
    ensures |ts| == |keep|
  {
    seq(|keep|, j requires 0 <= j < |keep| => TypeOf(t, keep[j]))
  }

  /** The values inserted for one row: the kept cells, then each computed
      value in order. */
  function Selected(row: Row, keep: seq<string>, adds: seq<Computed>): (vs: seq<Value>)
    ensures |vs| == |keep| + |adds|
  {
    Values(row, keep) + seq(|adds|, j requires 0 <= j < |adds| => adds[j].fn(row))
  }

  /** The value lists `select` inserts, one per row of the table. */
  function SelectedAll(t: Table, keep: seq<string>, adds: seq<Computed>): (valss: seq<seq<Value>>)
    ensures |valss| == |t.rows|
    ensures forall i | 0 <= i < |t.rows| :: valss[i] == Selected(t.rows[i], keep, adds)
  {
    seq(|t.rows|, i requires 0 <= i < |t.rows| => Selected(t.rows[i], keep, adds))
  }

  /** The (still empty) result table `select` creates. */
  function Target(t: Table, keep: seq<string>, adds: seq<Computed>): (e: Table)
    requires |t.columns| == |t.types|
    requires KnownColumns(t, keep)
    ensures Valid(e) && e.rows == []
  {
    Table(keep + DerivedNames(adds), KeepTypes(t, keep) + DerivedTypes(adds), [])
  }

  /** `select(keep_cols, additional_cols)`. A kept column the table lacks
      makes `col2type` raise ValueError before any row is copied; otherwise
      every row is inserted into the new table, and the first whose values
      do not fit the declared types raises TypeError. */
  function Select(t: Table, keep: seq<string>, adds: seq<Computed>): (r: Result<Table, Error>)
    requires Valid(t)
    ensures !KnownColumns(t, keep) ==> r == Failure(ValueError)
    ensures KnownColumns(t, keep) ==>
              (r.Success? <==> forall i | 0 <= i < |t.rows| ::
                                 Fits(Target(t, keep, adds).types, Selected(t.rows[i], keep, adds)))
    ensures KnownColumns(t, keep) && r.Failure? ==> r.error == TypeError
    ensures r.Success? ==> && Valid(r.value)
                           && r.value.columns == keep + DerivedNames(adds)
                           && r.value.types == KeepTypes(t, keep) + DerivedTypes(adds)
                           && |r.value.rows| == |t.rows|
                           && r.value.rows == ZipAll(r.value.columns, SelectedAll(t, keep, adds))
  {
    if !KnownColumns(t, keep) then Failure(ValueError)
    else InsertAll(Target(t, keep, adds), SelectedAll(t, keep, adds))
  }

  /** Row `i` of a successful selection is row `i` of the input, projected
      and extended: a kept column holds the input row's cell and a computed
      column holds its function's value on the input row (for a name that
      does not occur again further right). */
  lemma SelectRow(t: Table, keep: seq<string>, adds: seq<Computed>, i: nat)
    requires Valid(t)
    requires Select(t, keep, adds).Success?
    requires i < |t.rows|
    ensures var u := Select(t, keep, adds).value;
            && u.rows[i] == Zip(u.columns, Selected(t.rows[i], keep, adds))
            && (forall j | 0 <= j < |keep| && LastOccurrence(u.columns, j) ::
                  u.rows[i][keep[j]] == t.rows[i][keep[j]])
            && (forall j | 0 <= j < |adds| && LastOccurrence(u.columns, |keep| + j) ::
                  u.rows[i][adds[j].name] == adds[j].fn(t.rows[i]))
  {
    var u := Select(t, keep, adds).value;
    ZipAllAt(u.columns, SelectedAll(t, keep, adds), i);
    var vs := Selected(t.rows[i], keep, adds);
    forall j | 0 <= j < |keep| && LastOccurrence(u.columns, j)
      ensures u.rows[i][keep[j]] == t.rows[i][keep[j]]
    {
      ZipAt(u.columns, vs, j);
      assert keep[j] in t.rows[i];
    }
    forall j | 0 <= j < |adds| && LastOccurrence(u.columns, |keep| + j)
      ensures u.rows[i][adds[j].name] == adds[j].fn(t.rows[i])
    {
      ZipAt(u.columns, vs, |keep| + j);
      assert u.columns[|keep| + j] == adds[j].name;
      assert vs[|keep| + j] == adds[j].fn(t.rows[i]);
    }
  }

  lemma SelectedNothingAdded(row: Row, keep: seq<string>)
    ensures Selected(row, keep, []) == Values(row, keep)
  {
  }

  /** With no computed columns, `select` keeps every row's cells: a copy of
      all columns reproduces the rows. */
  lemma SelectAllRows(t: Table)
    requires Valid(t)
    requires Select(t, t.columns, []).Success?
    ensures Select(t, t.columns, []).value.rows == t.rows
  {
    var u := Select(t, t.columns, []).value;
    assert u.columns == t.columns by {
      assert DerivedNames<Row -> Value>([]) == [];
    }
    var valss := SelectedAll(t, t.columns, []);
    forall i | 0 <= i < |t.rows|
      ensures u.rows[i] == t.rows[i]
    {
      ZipAllAt(t.columns, valss, i);
      assert u.rows[i] == Zip(t.columns, valss[i]);
      SelectedNothingAdded(t.rows[i], t.columns);
      ZipValues(t.rows[i], t.columns);
    }
  }

  /** `col2type` of each column returns the column's own type when no name
      repeats. */
  lemma KeepTypesOwn(t: Table)
    requires |t.columns| == |t.types| && Distinct(t.columns)
    ensures KeepTypes(t, t.columns) == t.types
  {
    forall j | 0 <= j < |t.columns|
      ensures KeepTypes(t, t.columns)[j] == t.types[j]
    {
      var k := IndexOf(t.columns, t.columns[j]);
      assert k == j;
    }
  }

  /** `select()` with the defaults is an exact copy of a well-typed table
      whose column names are distinct. */
  lemma SelectCopy(t: Table)
    requires WellTyped(t) && Distinct(t.columns)
    ensures Select(t, t.columns, []) == Success(t)
  {
    KeepTypesOwn(t);
    assert Target(t, t.columns, []).types == t.types;
    forall i | 0 <= i < |t.rows|
      ensures Fits(Target(t, t.columns, []).types, Selected(t.rows[i], t.columns, []))
    {
      SelectedNothingAdded(t.rows[i], t.columns);
    }
    var r := Select(t, t.columns, []);
    SelectAllRows(t);
    assert DerivedNames<Row -> Value>([]) == [] && DerivedTypes<Row -> Value>([]) == [];
    assert r.value.columns == t.columns && r.value.types == t.types;
  }

  /** `orderby(order)`: a copy made by `select()` whose rows are sorted by
      the key, ascending and stably. The copy fails exactly as `select()`
      does. */
  function OrderBy(t: Table, key: Row -> real): (r: Result<Table, Error>)
    requires Valid(t)
    ensures r.Success? <==> Select(t, t.columns, []).Success?
    ensures r.Failure? ==> r.error == TypeError
    ensures r.Success? ==> && r.value.columns == t.columns
                           && r.value.types == KeepTypes(t, t.columns)
                           && SortedBy(r.value.rows, key)
                           && multiset(r.value.rows) == multiset(t.rows)
                           && forall k :: Filter(r.value.rows, HasKey(key, k)) == Filter(t.rows, HasKey(key, k))
  {
    assert KnownColumns(t, t.columns);
    var copy :- Select(t, t.columns, []);
    SelectAllRows(t);
    forall k
      ensures Filter(SortBy(copy.rows, key), HasKey(key, k)) == Filter(t.rows, HasKey(key, k))
    {
      SortByStable(copy.rows, key, k);
    }
    Success(copy.(rows := SortBy(copy.rows, key)))
  }

  /** Every arrangement that is sorted and keeps equal-keyed rows in table
      order is the result of `orderby`. */
  lemma OrderByIsTheStableSort(t: Table, key: Row -> real, rows: seq<Row>)
    requires Valid(t)
    requires OrderBy(t, key).Success?
    requires SortedBy(rows, key)
    requires forall k :: Filter(rows, HasKey(key, k)) == Filter(t.rows, HasKey(key, k))
    ensures OrderBy(t, key).value.rows == rows
  {
    var u := OrderBy(t, key).value;
    forall k
      ensures Filter(rows, HasKey(key, k)) == Filter(u.rows, HasKey(key, k))
    {
    }
    StableSortUnique(rows, u.rows, key);
  }

  /** A row holding `None` can no longer be copied: `update` accepts `None`
      for any column, but every derivation re-inserts the rows it keeps,
      and `insert` rejects `None`. */
  lemma NullCellBlocksCopy(t: Table, i: nat)
    requires Valid(t) && i < |t.rows|
    requires exists c | c in t.columns :: t.rows[i][c] == Null
    ensures !Fits(t.types, Values(t.rows[i], t.columns))
    ensures !Fits(KeepTypes(t, t.columns), Selected(t.rows[i], t.columns, []))
  {
    var c :| c in t.columns && t.rows[i][c] == Null;
    var k := IndexOf(t.columns, c);
    assert Values(t.rows[i], t.columns)[k] == Null;
    SelectedNothingAdded(t.rows[i], t.columns);
  }

  lemma NullRowWhere(u: Table, i: nat, q: Row -> bool)
    requires Valid(u) && i < |u.rows| && !Fits(u.types, Values(u.rows[i], u.columns))
    ensures q(u.rows[i]) ==> Where(u, q) == Failure(TypeError)
  {
  }

  lemma NullRowLimit(u: Table, i: nat)
    requires Valid(u) && i < |u.rows| && !Fits(u.types, Values(u.rows[i], u.columns))
    ensures Limit(u, i + 1) == Failure(TypeError)
  {
    assert LimitCount(i + 1, |u.rows|) == i + 1;
  }

  lemma NullRowSelect(u: Table, i: nat, key: Row -> real)
    requires Valid(u) && i < |u.rows| && !Fits(KeepTypes(u, u.columns), Selected(u.rows[i], u.columns, []))
    ensures Select(u, u.columns, []) == Failure(TypeError)
    ensures OrderBy(u, key) == Failure(TypeError)
  {
    assert KnownColumns(u, u.columns);
    assert KeepTypes(u, u.columns) + DerivedTypes<Row -> Value>([]) == KeepTypes(u, u.columns);
  }

  /** A table with a `None` cell in row `i`: `where` keeping that row,
      `limit` reaching it, the full `select()` copy and `orderby` all raise
      TypeError. */
  lemma NullRowBreaksCopies(u: Table, i: nat, q: Row -> bool, key: Row -> real)
    requires Valid(u) && i < |u.rows|
    requires exists c | c in u.columns :: u.rows[i][c] == Null
    ensures q(u.rows[i]) ==> Where(u, q) == Failure(TypeError)
    ensures Limit(u, i + 1) == Failure(TypeError)
    ensures Select(u, u.columns, []) == Failure(TypeError)
    ensures OrderBy(u, key) == Failure(TypeError)
  {
    NullCellBlocksCopy(u, i);
    NullRowWhere(u, i, q);
    NullRowLimit(u, i);
    NullRowSelect(u, i, key);
  }

  /** After `update` writes `None` into a row, `where` keeping that row,
      `limit` reaching it, the full `select()` copy and `orderby` all raise
      TypeError. */
  lemma NullUpdateBreaksCopies(t: Table, c: string, p: Row -> bool, i: nat, q: Row -> bool, key: Row -> real)
    requires Valid(t) && c in t.columns
    requires i < |t.rows| && p(t.rows[i])
    ensures Update(t, map[c := Null], p).Success?
    ensures var u := Update(t, map[c := Null], p).value;
            && (q(u.rows[i]) ==> Where(u, q) == Failure(TypeError))
            && Limit(u, i + 1) == Failure(TypeError)
            && Select(u, u.columns, []) == Failure(TypeError)
            && OrderBy(u, key) == Failure(TypeError)
  {
    var u := Update(t, map[c := Null], p).value;
    assert u.rows[i][c] == Null;
    NullRowBreaksCopies(u, i, q, key);
  }
}
