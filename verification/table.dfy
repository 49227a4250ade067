/** The in-memory table of pkg/dbtable/dbms.py: a schema (column names with
    their declared types), an ordered list of dict rows, the three mutations
    `insert`, `update` and `delete`, and the row-copying derivations `where`
    and `limit`. Mutations return the table after the call; a `Failure`
    stands for the exception, raised before any row changed. */
module Tables {
  import opened Results
  import opened Seqs
  import opened PyValues
  import opened Rows

  /** A table: column names, their declared types, and the rows in
      insertion order. */
  datatype Table = Table(columns: seq<string>, types: seq<ColType>, rows: seq<Row>)

  /** A column a derivation adds (an `additional_cols` entry of `select`,
      an `aggregates` entry of `groupby`): its name, the callable computing
      its cells, and the type the callable's return annotation declares. */
  datatype Derived<F> = Derived(name: string, fn: F, typ: ColType)

  function DerivedNames<F>(ds: seq<Derived<F>>): (ns: seq<string>)
    ensures |ns| == |ds|
  {
    seq(|ds|, j requires 0 <= j < |ds| => ds[j].name)
  }

  function DerivedTypes<F>(ds: seq<Derived<F>>): (ts: seq<ColType>)
    ensures |ts| == |ds|
  {
    seq(|ds|, j requires 0 <= j < |ds| => ds[j].typ)
  }

  /** The constructor asserts as many types as columns, and every row enters
      through `insert`, which zips it with the columns; `update` only writes
      existing columns. So every row has exactly the table's column names. */
  predicate Valid(t: Table)
  {
    && |t.columns| == |t.types|
    && forall i | 0 <= i < |t.rows| :: t.rows[i].Keys == ColumnSet(t.columns)
  }

  /** What `insert` demands of a value list: one value per column, each an
      instance of its column's type. */
  predicate Fits(types: seq<ColType>, vals: seq<Value>)
  {
    |vals| == |types| && forall i | 0 <= i < |vals| :: IsInstance(vals[i], types[i])
  }

  /** Every row would pass `insert` again. Only a `None` written by `update`
      breaks this. */
  predicate WellTyped(t: Table)
  {
    Valid(t) && forall i | 0 <= i < |t.rows| :: Fits(t.types, Values(t.rows[i], t.columns))
  }

  /** `cols.index(c)`: the first position holding `c`. */
  function IndexOf(cols: seq<string>, c: string): (i: nat)
    requires c in cols
    ensures i < |cols| && cols[i] == c
    ensures forall j | 0 <= j < i :: cols[j] != c
  {
    if cols[0] == c then 0 else 1 + IndexOf(cols[1..], c)
  }

  /** The type declared for the first column named `c`, for a column the
      table has. */
  function TypeOf(t: Table, c: string): ColType
    requires |t.columns| == |t.types|
    requires c in t.columns
  {
    t.types[IndexOf(t.columns, c)]
  }

  /** `col2type`: the type declared for the first column named `c`;
      `list.index` raises ValueError for a column the table lacks. */
  function Col2Type(t: Table, c: string): (r: Result<ColType, Error>)
    requires |t.columns| == |t.types|
    ensures r.Success? <==> c in t.columns
    ensures r.Failure? ==> r.error == ValueError
    ensures r.Success? ==> exists i | 0 <= i < |t.columns| ::
                             && t.columns[i] == c && t.types[i] == r.value
                             && forall j | 0 <= j < i :: t.columns[j] != c
  {
    if c in t.columns then Success(TypeOf(t, c)) else Failure(ValueError)
  }

  /** The last value zipped under each name is the one a row keeps. */
  lemma ZipAtAll(cols: seq<string>, vals: seq<Value>)
    requires |cols| == |vals|
    ensures forall i | 0 <= i < |cols| && LastOccurrence(cols, i) :: Zip(cols, vals)[cols[i]] == vals[i]
  {
    forall i | 0 <= i < |cols| && LastOccurrence(cols, i)
      ensures Zip(cols, vals)[cols[i]] == vals[i]
    {
      ZipAt(cols, vals, i);
    }
  }

  /** `insert(values)`: ValueError on a wrong value count, TypeError on a
      value that is not an instance of its column's type; otherwise one row,
      the columns zipped with the values, is appended at the end. */
  function Insert(t: Table, vals: seq<Value>): (r: Result<Table, Error>)
    requires Valid(t)
    ensures r.Success? <==> Fits(t.types, vals)
    ensures r.Failure? ==> r.error == (if |vals| != |t.types| then ValueError else TypeError)
    ensures r.Success? ==> && Valid(r.value)
                           && r.value.columns == t.columns && r.value.types == t.types
                           && r.value.rows == t.rows + [Zip(t.columns, vals)]
  {
    if |vals| != |t.types| then Failure(ValueError)
    else if !Fits(t.types, vals) then Failure(TypeError)
    else Success(t.(rows := t.rows + [Zip(t.columns, vals)]))
  }

  /** A successful insert appends exactly one row at the end, and that row
      holds each value under its column's name (the last one, when a name
      repeats). */
  lemma InsertAppendsRow(t: Table, vals: seq<Value>)
    requires Valid(t)
    requires Insert(t, vals).Success?
    ensures var u := Insert(t, vals).value;
            && |u.rows| == |t.rows| + 1
            && u.rows[..|t.rows|] == t.rows
            && u.rows[|t.rows|].Keys == ColumnSet(t.columns)
            && forall i | 0 <= i < |t.columns| && LastOccurrence(t.columns, i) ::
                 u.rows[|t.rows|][t.columns[i]] == vals[i]
  {
    var u := Insert(t, vals).value;
    assert u.rows[..|t.rows|] == t.rows;
    ZipAtAll(t.columns, vals);
  }

  /** The rows a sequence of successful inserts appends. */
  function ZipAll(cols: seq<string>, valss: seq<seq<Value>>): (rows: seq<Row>)
    requires forall i | 0 <= i < |valss| :: |valss[i]| == |cols|
    ensures |rows| == |valss|
  {
    if |valss| == 0 then [] else [Zip(cols, valss[0])] + ZipAll(cols, valss[1..])
  }

  lemma {:induction false} ZipAllAt(cols: seq<string>, valss: seq<seq<Value>>, i: nat)
    requires forall k | 0 <= k < |valss| :: |valss[k]| == |cols|
    requires i < |valss|
    ensures ZipAll(cols, valss)[i] == Zip(cols, valss[i])
  {
    if i > 0 {
      ZipAllAt(cols, valss[1..], i - 1);
    }
  }

  lemma {:induction false} ZipAllAppend(cols: seq<string>, a: seq<seq<Value>>, b: seq<seq<Value>>)
    requires forall i | 0 <= i < |a| :: |a[i]| == |cols|
    requires forall i | 0 <= i < |b| :: |b[i]| == |cols|
    ensures ZipAll(cols, a + b) == ZipAll(cols, a) + ZipAll(cols, b)
  {
    if |a| == 0 {
      assert a + b == b;
    } else {
      assert (a + b)[1..] == a[1..] + b;
      ZipAllAppend(cols, a[1..], b);
    }
  }

  /** Every value list fits the column types. */
  predicate AllFit(types: seq<ColType>, valss: seq<seq<Value>>)
  {
    forall k | 0 <= k < |valss| :: Fits(types, valss[k])
  }

  lemma AllFitAppend(types: seq<ColType>, a: seq<seq<Value>>, b: seq<seq<Value>>)
    ensures AllFit(types, a + b) <==> AllFit(types, a) && AllFit(types, b)
  {
    if AllFit(types, a) && AllFit(types, b) {
      forall k | 0 <= k < |a + b|
        ensures Fits(types, (a + b)[k])
      {
        if k >= |a| { assert (a + b)[k] == b[k - |a|]; }
      }
    }
    if AllFit(types, a + b) {
      forall k | 0 <= k < |a|
        ensures Fits(types, a[k])
      {
        assert (a + b)[k] == a[k];
      }
      forall k | 0 <= k < |b|
        ensures Fits(types, b[k])
      {
        assert (a + b)[|a| + k] == b[k];
      }
    }
  }

  /** Inserting value lists one after another: the first one that does not
      fit raises, and otherwise all are appended in order. */
  function InsertAll(t: Table, valss: seq<seq<Value>>): (r: Result<Table, Error>)
    requires Valid(t)
    ensures r.Success? <==> forall i | 0 <= i < |valss| :: Fits(t.types, valss[i])
    ensures r.Success? ==> r.value == t.(rows := t.rows + ZipAll(t.columns, valss))
    ensures r.Success? ==> Valid(r.value)
    ensures (forall i | 0 <= i < |valss| :: |valss[i]| == |t.types|) && r.Failure? ==> r.error == TypeError
    decreases |valss|
  {
    if |valss| == 0 then
      assert t.rows + ZipAll(t.columns, valss) == t.rows;
      Success(t)
    else
      var head := Insert(t, valss[0]);
      if head.Failure? then Failure(head.error)
      else
        var rest := valss[1..];
        assert forall i | 0 <= i < |rest| :: rest[i] == valss[i + 1];
        var r := InsertAll(head.value, rest);
        assert r.Success? <==> forall i | 0 <= i < |valss| :: Fits(t.types, valss[i]) by {
          if r.Success? {
            forall i | 0 <= i < |valss|
              ensures Fits(t.types, valss[i])
            {
              if i > 0 { assert valss[i] == rest[i - 1]; }
            }
          }
        }
        assert r.Success? ==> t.rows + ZipAll(t.columns, valss) == head.value.rows + ZipAll(t.columns, rest) by {
          if r.Success? {
            assert ZipAll(t.columns, valss) == [Zip(t.columns, valss[0])] + ZipAll(t.columns, rest);
          }
        }
        r
  }

  /** `update` checks every assignment before touching a row: the column
      must exist, and a value other than `None` must be an instance of the
      column's type. `None` is accepted for any column. */
  predicate AssignmentsValid(t: Table, updates: map<string, Value>)
    requires |t.columns| == |t.types|
  {
    forall c | c in updates ::
      c in t.columns && (updates[c] == Null || IsInstance(updates[c], TypeOf(t, c)))
  }

  /** `update(updates, predicate)`: TypeError when an assignment is invalid,
      with no row changed; otherwise every row satisfying the predicate gets
      the assigned cells and nothing else changes. */
  function Update(t: Table, updates: map<string, Value>, p: Row -> bool): (r: Result<Table, Error>)
    requires Valid(t)
    ensures r.Success? <==> AssignmentsValid(t, updates)
    ensures r.Failure? ==> r.error == TypeError
    ensures r.Success? ==> && Valid(r.value)
                           && r.value.columns == t.columns && r.value.types == t.types
                           && |r.value.rows| == |t.rows|
    ensures r.Success? ==> forall i | 0 <= i < |t.rows| ::
              if p(t.rows[i]) then
                && r.value.rows[i].Keys == t.rows[i].Keys
                && (forall c | c in updates :: r.value.rows[i][c] == updates[c])
                && (forall c | c in t.rows[i] && c !in updates :: r.value.rows[i][c] == t.rows[i][c])
              else r.value.rows[i] == t.rows[i]
  {
    if !AssignmentsValid(t, updates) then Failure(TypeError)
    else
      Success(t.(rows := seq(|t.rows|, i requires 0 <= i < |t.rows| =>
                               if p(t.rows[i]) then t.rows[i] + updates else t.rows[i])))
  }

  /** `delete(predicate)` as intended: the rows not satisfying the predicate
      remain, in their original order. */
  function Delete(t: Table, p: Row -> bool): (r: Table)
    ensures r.columns == t.columns && r.types == t.types
    ensures forall x :: x in r.rows <==> x in t.rows && !p(x)
    ensures |r.rows| + |Filter(t.rows, p)| == |t.rows|
    ensures Subsequence(r.rows, t.rows)
    ensures Valid(t) ==> Valid(r)
  {
    FilterComplementSize(t.rows, p);
    FilterSubsequence(t.rows, Not(p));
    forall x ensures x in Filter(t.rows, Not(p)) <==> x in t.rows && !p(x) {
      FilterMembership(t.rows, Not(p), x);
    }
    t.(rows := Filter(t.rows, Not(p)))
  }

  /** `list.remove(x)`: drops the first element equal to `x` under Python
      `==` (dict equality), and raises ValueError when there is none. */
  function RemoveFirst(rows: seq<Row>, x: Row): Result<seq<Row>, Error>
  {
    if |rows| == 0 then Failure(ValueError)
    else if RowEq(rows[0], x) then Success(rows[1..])
    else
      var rest :- RemoveFirst(rows[1..], x);
      Success([rows[0]] + rest)
  }

  /** `for purgee in purgees: rows.remove(purgee)`. */
  function RemoveEach(rows: seq<Row>, purgees: seq<Row>): Result<seq<Row>, Error>
    decreases |purgees|
  {
    if |purgees| == 0 then Success(rows)
    else
      var rest :- RemoveFirst(rows, purgees[0]);
      RemoveEach(rest, purgees[1..])
  }

  /** Removing the first of some rows taken in order from `rows` succeeds,
      drops one row, and leaves the others still in order. */
  lemma {:induction false} RemoveFirstSubsequence(rows: seq<Row>, xs: seq<Row>)
    requires |xs| > 0 && Subsequence(xs, rows)
    ensures RemoveFirst(rows, xs[0]).Success?
    ensures |RemoveFirst(rows, xs[0]).value| == |rows| - 1
    ensures Subsequence(xs[1..], RemoveFirst(rows, xs[0]).value)
    ensures forall y | y in RemoveFirst(rows, xs[0]).value :: y in rows
  {
    if RowEq(rows[0], xs[0]) {
      if !(xs[0] == rows[0] && Subsequence(xs[1..], rows[1..])) {
        SubsequenceTail(xs, rows[1..]);
      }
    } else {
      RemoveFirstSubsequence(rows[1..], xs);
      SubsequenceCons(xs[1..], rows[0], RemoveFirst(rows[1..], xs[0]).value);
    }
  }

  /** Removing, one by one, rows taken in order from `rows` never raises
      and drops one row each. */
  lemma {:induction false} RemoveEachSubsequence(rows: seq<Row>, purgees: seq<Row>)
    requires Subsequence(purgees, rows)
    ensures RemoveEach(rows, purgees).Success?
    ensures |RemoveEach(rows, purgees).value| == |rows| - |purgees|
    ensures forall y | y in RemoveEach(rows, purgees).value :: y in rows
    decreases |purgees|
  {
    if |purgees| > 0 {
      RemoveFirstSubsequence(rows, purgees);
      RemoveEachSubsequence(RemoveFirst(rows, purgees[0]).value, purgees[1..]);
    }
  }

  /** `delete` as the code is written: collect the rows satisfying the
      predicate, then remove each one by equality. It never raises, since
      every collected row is still there when its turn comes, and it
      removes one row per selected row; which rows go is another matter. */
  function DeleteAsWritten(t: Table, p: Row -> bool): (r: Result<Table, Error>)
    ensures r.Success?
    ensures r.value.columns == t.columns && r.value.types == t.types
    ensures |r.value.rows| == |t.rows| - |Filter(t.rows, p)|
    ensures forall x | x in r.value.rows :: x in t.rows
    ensures Valid(t) ==> Valid(r.value)
  {
    FilterSubsequence(t.rows, p);
    RemoveEachSubsequence(t.rows, Filter(t.rows, p));
    var rest := RemoveEach(t.rows, Filter(t.rows, p)).value;
    assert Valid(t) ==> Valid(t.(rows := rest)) by {
      if Valid(t) {
        forall i | 0 <= i < |rest|
          ensures rest[i].Keys == ColumnSet(t.columns)
        {
          assert rest[i] in rest;
          var j :| 0 <= j < |t.rows| && t.rows[j] == rest[i];
        }
      }
    }
    Success(t.(rows := rest))
  }

  /** The predicate gives the same answer on rows Python considers equal. */
  ghost predicate RespectsEq(rows: seq<Row>, p: Row -> bool)
  {
    forall i, j | 0 <= i < |rows| && 0 <= j < |rows| && RowEq(rows[i], rows[j]) :: p(rows[i]) == p(rows[j])
  }

  /** Removal skips a leading row equal to none of the purgees. */
  lemma {:induction false} RemoveEachSkip(x: Row, rows: seq<Row>, purgees: seq<Row>)
    requires forall k | 0 <= k < |purgees| :: !RowEq(x, purgees[k])
    requires RemoveEach(rows, purgees).Success?
    ensures RemoveEach([x] + rows, purgees) == Success([x] + RemoveEach(rows, purgees).value)
    decreases |purgees|
  {
    if |purgees| > 0 {
      var rest := RemoveFirst(rows, purgees[0]).value;
      assert RemoveFirst([x] + rows, purgees[0]) == Success([x] + rest) by {
        assert ([x] + rows)[1..] == rows;
      }
      RemoveEachSkip(x, rest, purgees[1..]);
    }
  }

  lemma {:induction false} RemoveEachFilter(rows: seq<Row>, p: Row -> bool)
    requires RespectsEq(rows, p)
    ensures RemoveEach(rows, Filter(rows, p)) == Success(Filter(rows, Not(p)))
  {
    if |rows| > 0 {
      var x, tail := rows[0], rows[1..];
      assert RespectsEq(tail, p) by {
        forall i, j | 0 <= i < |tail| && 0 <= j < |tail| && RowEq(tail[i], tail[j])
          ensures p(tail[i]) == p(tail[j])
        {
          assert tail[i] == rows[i + 1] && tail[j] == rows[j + 1];
        }
      }
      RemoveEachFilter(tail, p);
      if p(x) {
        assert RowEq(x, x);
      } else {
        var purgees := Filter(tail, p);
        forall k | 0 <= k < |purgees|
          ensures !RowEq(x, purgees[k])
        {
          assert purgees[k] in tail;
          var j :| 0 <= j < |tail| && tail[j] == purgees[k];
          assert rows[j + 1] == purgees[k];
        }
        RemoveEachSkip(x, tail, purgees);
        assert rows == [x] + tail;
      }
    }
  }

  /** When the predicate cannot tell apart rows that Python finds equal,
      the code as written does what `delete` intends. */
  lemma DeleteAsWrittenAgrees(t: Table, p: Row -> bool)
    requires RespectsEq(t.rows, p)
    ensures DeleteAsWritten(t, p) == Success(Delete(t, p))
  {
    RemoveEachFilter(t.rows, p);
  }

  /** `True == 1`, so `{'n': True} == {'n': 1}`: deleting the rows whose `n`
      is an `int` proper removes the `True` row, which comes first, and keeps
      the row that satisfied the predicate. */
  lemma DeleteAsWrittenRemovesWrongRow()
    ensures var t := Table(["n"], [IntType], [map["n" := Bool(true)], map["n" := Int(1)]]);
            var p := (r: Row) => Get(r, "n").Int?;
            && Valid(t)
            && DeleteAsWritten(t, p) == Success(t.(rows := [map["n" := Int(1)]]))
            && Delete(t, p).rows == [map["n" := Bool(true)]]
  {
    var t := Table(["n"], [IntType], [map["n" := Bool(true)], map["n" := Int(1)]]);
    var p := (r: Row) => Get(r, "n").Int?;
    assert Filter(t.rows, p) == [map["n" := Int(1)]] by {
      assert Filter(t.rows[1..], p) == [map["n" := Int(1)]] + Filter(t.rows[2..], p);
    }
    assert RowEq(map["n" := Bool(true)], map["n" := Int(1)]);
    assert Filter(t.rows, Not(p)) == [map["n" := Bool(true)]] by {
      assert Filter(t.rows[1..], Not(p)) == Filter(t.rows[2..], Not(p));
    }
  }

  /** Copies of `rows` inserted one by one into an empty table with the
      same schema: what `where`, `limit` and the copy in `orderby` do. */
  function Reinsert(t: Table, rows: seq<Row>): Result<Table, Error>
    requires Valid(t)
  {
    InsertAll(Table(t.columns, t.types, []),
              seq(|rows|, i requires 0 <= i < |rows| => Values(rows[i], t.columns)))
  }

  /** Re-inserting rows of the table's shape succeeds exactly when each of
      them type-checks, and then reproduces them. */
  lemma ReinsertSpec(t: Table, rows: seq<Row>)
    requires Valid(t)
    requires forall i | 0 <= i < |rows| :: rows[i].Keys == ColumnSet(t.columns)
    ensures Reinsert(t, rows).Success? <==>
              forall i | 0 <= i < |rows| :: Fits(t.types, Values(rows[i], t.columns))
    ensures Reinsert(t, rows).Failure? ==> Reinsert(t, rows).error == TypeError
    ensures Reinsert(t, rows).Success? ==> Reinsert(t, rows).value == Table(t.columns, t.types, rows)
  {
    var valss := seq(|rows|, i requires 0 <= i < |rows| => Values(rows[i], t.columns));
    assert forall i | 0 <= i < |rows| :: valss[i] == Values(rows[i], t.columns);
    var r := Reinsert(t, rows);
    if r.Success? {
      forall i | 0 <= i < |rows|
        ensures ZipAll(t.columns, valss)[i] == rows[i]
      {
        ZipAllAt(t.columns, valss, i);
        ZipValues(rows[i], t.columns);
      }
      assert [] + ZipAll(t.columns, valss) == rows;
    }
  }

  /** `where(predicate)`: the same schema and exactly the rows satisfying
      the predicate, in order. Each is re-inserted, so a selected row holding
      a `None` makes it raise TypeError. */
  function Where(t: Table, p: Row -> bool): (r: Result<Table, Error>)
    requires Valid(t)
    ensures r.Success? <==> forall i | 0 <= i < |t.rows| && p(t.rows[i]) ::
                              Fits(t.types, Values(t.rows[i], t.columns))
    ensures r.Failure? ==> r.error == TypeError
    ensures r.Success? ==> && Valid(r.value)
                           && r.value.columns == t.columns && r.value.types == t.types
                           && r.value.rows == Filter(t.rows, p)
  {
    var kept := Filter(t.rows, p);
    ReinsertSpec(t, kept);
    assert (forall i | 0 <= i < |kept| :: Fits(t.types, Values(kept[i], t.columns))) <==>
           (forall i | 0 <= i < |t.rows| && p(t.rows[i]) :: Fits(t.types, Values(t.rows[i], t.columns))) by {
      forall i | 0 <= i < |t.rows| && p(t.rows[i])
        ensures t.rows[i] in kept
      {
        FilterMembership(t.rows, p, t.rows[i]);
      }
    }
    Reinsert(t, kept)
  }

  /** `where(p)` and `delete(p)` split a table: a row is kept by exactly one
      of them, and their row counts add up. */
  lemma WhereDeleteSplit(t: Table, p: Row -> bool)
    requires Valid(t)
    requires Where(t, p).Success?
    ensures forall x :: x in Where(t, p).value.rows <==> x in t.rows && p(x)
    ensures forall x :: x in Delete(t, p).rows <==> x in t.rows && !p(x)
    ensures |Where(t, p).value.rows| + |Delete(t, p).rows| == |t.rows|
  {
    forall x
      ensures x in Where(t, p).value.rows <==> x in t.rows && p(x)
    {
      FilterMembership(t.rows, p, x);
    }
  }

  /** Number of rows `limit(n)` keeps: `min(max(n, 0), len)`. */
  function LimitCount(n: int, len: nat): (k: nat)
    ensures k <= len
    ensures n <= 0 ==> k == 0
    ensures 0 <= n <= len ==> k == n
    ensures n >= len ==> k == len
  {
    if n <= 0 then 0 else if n < len then n else len
  }

  /** The rows the loop of `limit(n)` reaches, the first of `rows` being
      numbered `i`: it breaks at the first number above `n`. */
  function LimitFrom(rows: seq<Row>, n: int, i: int): seq<Row>
  {
    if |rows| == 0 || i > n then [] else [rows[0]] + LimitFrom(rows[1..], n, i + 1)
  }

  /** `for i, row in enumerate(rows, 1): if i > n: break`. */
  function LimitLoop(rows: seq<Row>, n: int): seq<Row>
  {
    LimitFrom(rows, n, 1)
  }

  lemma {:induction false} LimitFromPrefix(rows: seq<Row>, n: int, i: int)
    ensures LimitFrom(rows, n, i) == rows[..LimitCount(n - i + 1, |rows|)]
  {
    if |rows| > 0 && i <= n {
      LimitFromPrefix(rows[1..], n, i + 1);
      var k := LimitCount(n - i, |rows| - 1);
      assert LimitCount(n - i + 1, |rows|) == k + 1;
      assert [rows[0]] + rows[1..][..k] == rows[..k + 1];
    }
  }

  /** The loop keeps exactly the first `min(max(n, 0), len)` rows. */
  lemma LimitLoopKeepsPrefix(rows: seq<Row>, n: int)
    ensures LimitLoop(rows, n) == rows[..LimitCount(n, |rows|)]
  {
    LimitFromPrefix(rows, n, 1);
  }

  /** `limit(n)`: the rows the loop reaches, re-inserted under the same
      schema. */
  function Limit(t: Table, n: int): (r: Result<Table, Error>)
    requires Valid(t)
    ensures r.Success? <==> forall i | 0 <= i < LimitCount(n, |t.rows|) ::
                              Fits(t.types, Values(t.rows[i], t.columns))
    ensures r.Failure? ==> r.error == TypeError
    ensures r.Success? ==> && r.value.columns == t.columns && r.value.types == t.types
                           && |r.value.rows| == LimitCount(n, |t.rows|)
                           && r.value.rows <= t.rows
  {
    var k := LimitCount(n, |t.rows|);
    var kept := LimitLoop(t.rows, n);
    LimitLoopKeepsPrefix(t.rows, n);
    assert forall i | 0 <= i < k :: kept[i] == t.rows[i];
    ReinsertSpec(t, kept);
    Reinsert(t, kept)
  }
}
