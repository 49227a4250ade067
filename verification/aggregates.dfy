/** The sample aggregates of pkg/dbtable/dbms.py (`length`, `min_userid`,
    `sum_userids`, `count_interests`). Each reads one named cell per row,
    raising KeyError for a row without it, and raises TypeError where the
    Python operator it applies would. */
module SampleAggregates {
  import opened Results
  import opened Seqs
  import opened PyValues
  import opened Rows
  import opened Tables
  import opened Collectors
  import opened Grouping

  /** `row[c]`, which raises KeyError for a missing key. */
  function Field(row: Row, c: string): (r: Result<Value, Error>)
    ensures r == if c in row then Success(row[c]) else Failure(KeyError)
  {
    if c in row then Success(row[c]) else Failure(KeyError)
  }

  /** `length(rows)`: the number of rows. */
  function Length(rows: seq<Row>): (v: Value)
    ensures v.Int? && v.i == |rows|
  {
    Int(|rows|)
  }

  predicate IsNumber(v: Value)
  {
    v.Int? || v.Bool? || v.Float?
  }

  /** Python string order: lexicographic on code points. */
  predicate StrLess(a: string, b: string)
  {
    if |a| == 0 then |b| > 0
    else if |b| == 0 then false
    else if a[0] != b[0] then a[0] < b[0]
    else StrLess(a[1..], b[1..])
  }

  /** Python `a < b`: numbers compare by value, strings lexicographically,
      and any other pairing raises TypeError. */
  function Less(a: Value, b: Value): (r: Result<bool, Error>)
    ensures r.Failure? <==> !((IsNumber(a) && IsNumber(b)) || (a.Str? && b.Str?))
    ensures r.Failure? ==> r.error == TypeError
    ensures IsNumber(a) && IsNumber(b) ==> r == Success(Canon(a).n < Canon(b).n)
  {
    if IsNumber(a) && IsNumber(b) then Success(Canon(a).n < Canon(b).n)
    else if a.Str? && b.Str? then Success(StrLess(a.s, b.s))
    else Failure(TypeError)
  }

  /** The loop of `min` after the first item: an item replaces the current
      minimum only when strictly smaller. */
  function MinLoop(cur: Value, rows: seq<Row>, c: string): Result<Value, Error>
    decreases |rows|
  {
    if |rows| == 0 then Success(cur)
    else
      var v :- Field(rows[0], c);
      var smaller :- Less(v, cur);
      MinLoop(if smaller then v else cur, rows[1..], c)
  }

  /** `min(row[c] for row in rows)`: ValueError on no rows. */
  function MinOf(rows: seq<Row>, c: string): Result<Value, Error>
  {
    if |rows| == 0 then Failure(ValueError)
    else
      var first :- Field(rows[0], c);
      MinLoop(first, rows[1..], c)
  }

  /** Every row holds an integer (or boolean) cell `c`, as rows of a table
      with an `int` column `c` do. */
  predicate IntCells(rows: seq<Row>, c: string)
  {
    forall i | 0 <= i < |rows| :: c in rows[i] && IsIntLike(rows[i][c])
  }

  /** `min` over integer cells returns the cell of the first row holding
      the least value. */
  lemma {:induction false} MinLoopFirstLeast(cur: Value, rows: seq<Row>, c: string)
    requires IsIntLike(cur) && IntCells(rows, c)
    decreases |rows|
    ensures var r := MinLoop(cur, rows, c);
            && r.Success? && IsIntLike(r.value)
            && AsInt(r.value) <= AsInt(cur)
            && (forall i | 0 <= i < |rows| :: AsInt(r.value) <= AsInt(rows[i][c]))
            && (r.value == cur || exists k | 0 <= k < |rows| ::
                  && r.value == rows[k][c] && AsInt(r.value) < AsInt(cur)
                  && forall i | 0 <= i < k :: AsInt(rows[i][c]) > AsInt(r.value))
  {
    if |rows| > 0 {
      var v := rows[0][c];
      AsIntCanon(v);
      AsIntCanon(cur);
      var next := if AsInt(v) < AsInt(cur) then v else cur;
      assert IntCells(rows[1..], c) by {
        forall i | 0 <= i < |rows| - 1 ensures c in rows[1..][i] && IsIntLike(rows[1..][i][c]) {
          assert rows[1..][i] == rows[i + 1];
        }
      }
      MinLoopFirstLeast(next, rows[1..], c);
      var m := MinLoop(next, rows[1..], c).value;
      assert MinLoop(cur, rows, c) == MinLoop(next, rows[1..], c);
      forall i | 0 <= i < |rows|
        ensures AsInt(m) <= AsInt(rows[i][c])
      {
        if i > 0 {
          assert rows[1..][i - 1] == rows[i];
        }
      }
      if m != cur {
        if m == next {
          assert m == rows[0][c] && AsInt(m) < AsInt(cur);
        } else {
          var k :| 0 <= k < |rows| - 1 && m == rows[1..][k][c] && AsInt(m) < AsInt(next)
                   && forall i | 0 <= i < k :: AsInt(rows[1..][i][c]) > AsInt(m);
          assert m == rows[k + 1][c];
          forall i | 0 <= i < k + 1
            ensures AsInt(rows[i][c]) > AsInt(m)
          {
            if i > 0 {
              assert rows[i] == rows[1..][i - 1];
            }
          }
        }
      }
    }
  }

  /** `min_userid(rows)`: `min(row['userID'] for row in rows)`. */
  function MinUserId(rows: seq<Row>): Result<Value, Error>
  {
    MinOf(rows, "userID")
  }

  /** On no rows `min_userid` raises ValueError; on integer ids it returns
      the id of the first row holding the least one. */
  lemma MinUserIdSpec(rows: seq<Row>)
    ensures |rows| == 0 ==> MinUserId(rows) == Failure(ValueError)
    ensures |rows| > 0 && IntCells(rows, "userID") ==>
              var r := MinUserId(rows);
              && r.Success? && IsIntLike(r.value)
              && (forall i | 0 <= i < |rows| :: AsInt(r.value) <= AsInt(rows[i]["userID"]))
              && exists k | 0 <= k < |rows| ::
                   && r.value == rows[k]["userID"]
                   && forall i | 0 <= i < k :: AsInt(rows[i]["userID"]) > AsInt(r.value)
    ensures (exists i | 0 <= i < |rows| :: "userID" !in rows[i]) ==> MinUserId(rows).Failure?
  {
    if |rows| > 0 && IntCells(rows, "userID") {
      var c := "userID";
      var tail := rows[1..];
      assert IntCells(tail, c) by {
        forall i | 0 <= i < |tail| ensures c in tail[i] && IsIntLike(tail[i][c]) {
          assert tail[i] == rows[i + 1];
        }
      }
      MinLoopFirstLeast(rows[0][c], tail, c);
      var m := MinUserId(rows).value;
      forall i | 0 <= i < |rows|
        ensures AsInt(m) <= AsInt(rows[i][c])
      {
        if i > 0 {
          assert tail[i - 1] == rows[i];
        }
      }
      if m != rows[0][c] {
        var k :| 0 <= k < |tail| && m == tail[k][c] && AsInt(m) < AsInt(rows[0][c])
                 && forall i | 0 <= i < k :: AsInt(tail[i][c]) > AsInt(m);
        assert m == rows[k + 1][c];
        forall i | 0 <= i < k + 1
          ensures AsInt(rows[i][c]) > AsInt(m)
        {
          if i > 0 {
            assert rows[i] == tail[i - 1];
          }
        }
      }
    }
    if exists i | 0 <= i < |rows| :: "userID" !in rows[i] {
      var i :| 0 <= i < |rows| && "userID" !in rows[i];
      MissingCellFails(rows, "userID", i);
    }
  }

  /** A row without the cell ends `min` with an exception. */
  lemma {:induction false} MissingCellFails(rows: seq<Row>, c: string, i: nat)
    requires i < |rows| && c !in rows[i]
    ensures MinOf(rows, c).Failure?
  {
    if i > 0 && c in rows[0] {
      MinLoopMissing(rows[0][c], rows[1..], c, i - 1);
    }
  }

  lemma {:induction false} MinLoopMissing(cur: Value, rows: seq<Row>, c: string, i: nat)
    requires i < |rows| && c !in rows[i]
    ensures MinLoop(cur, rows, c).Failure?
    decreases |rows|
  {
    if i > 0 && c in rows[0] {
      var v := rows[0][c];
      var smaller := Less(v, cur);
      if smaller.Success? {
        MinLoopMissing(if smaller.value then v else cur, rows[1..], c, i - 1);
      }
    }
  }

  /** Python `a + b` on the running total of `sum`: integers (booleans
      count as 0 and 1) stay integers, a float makes the total a float, and
      anything else raises TypeError. */
  function Add(a: Value, b: Value): (r: Result<Value, Error>)
    ensures IsIntLike(a) && IsIntLike(b) ==> r == Success(Int(AsInt(a) + AsInt(b)))
    ensures !(IsNumber(a) && IsNumber(b)) ==> r == Failure(TypeError)
  {
    if IsIntLike(a) && IsIntLike(b) then Success(Int(AsInt(a) + AsInt(b)))
    else if IsNumber(a) && IsNumber(b) then Success(Float(Canon(a).n + Canon(b).n))
    else Failure(TypeError)
  }

  function SumLoop(acc: Value, rows: seq<Row>, c: string): Result<Value, Error>
    decreases |rows|
  {
    if |rows| == 0 then Success(acc)
    else
      var v :- Field(rows[0], c);
      var next :- Add(acc, v);
      SumLoop(next, rows[1..], c)
  }

  /** `sum_userids(rows)`: `sum(row['userID'] for row in rows)`, which
      starts from the integer 0. */
  function SumUserIds(rows: seq<Row>): Result<Value, Error>
  {
    SumLoop(Int(0), rows, "userID")
  }

  /** The integers of cell `c`, in row order. */
  function IntsOf(rows: seq<Row>, c: string): (xs: seq<int>)
    requires IntCells(rows, c)
    ensures |xs| == |rows|
  {
    seq(|rows|, i requires 0 <= i < |rows| => AsInt(rows[i][c]))
  }

  lemma {:induction false} SumLoopInts(acc: int, rows: seq<Row>, c: string)
    requires IntCells(rows, c)
    ensures SumLoop(Int(acc), rows, c) == Success(Int(acc + Sum(IntsOf(rows, c))))
    decreases |rows|
  {
    if |rows| > 0 {
      var tail := rows[1..];
      assert IntCells(tail, c) by {
        forall i | 0 <= i < |tail| ensures c in tail[i] && IsIntLike(tail[i][c]) {
          assert tail[i] == rows[i + 1];
        }
      }
      SumLoopInts(acc + AsInt(rows[0][c]), tail, c);
      assert IntsOf(rows, c) == [AsInt(rows[0][c])] + IntsOf(tail, c);
    }
  }

  /** On integer ids `sum_userids` is their sum (0 for no rows), and it is
      additive over a split of the rows. */
  lemma SumUserIdsSpec(a: seq<Row>, b: seq<Row>)
    requires IntCells(a, "userID") && IntCells(b, "userID")
    ensures SumUserIds(a) == Success(Int(Sum(IntsOf(a, "userID"))))
    ensures SumUserIds(a + b) == Success(Int(Sum(IntsOf(a, "userID")) + Sum(IntsOf(b, "userID"))))
  {
    var c := "userID";
    assert IntCells(a + b, c) by {
      forall i | 0 <= i < |a + b| ensures c in (a + b)[i] && IsIntLike((a + b)[i][c]) {
        if i >= |a| { assert (a + b)[i] == b[i - |a|]; }
      }
    }
    SumLoopInts(0, a, c);
    SumLoopInts(0, b, c);
    SumLoopInts(0, a + b, c);
    assert IntsOf(a + b, c) == IntsOf(a, c) + IntsOf(b, c);
    SumAppend(IntsOf(a, c), IntsOf(b, c));
  }

  /** `bool(row[c])` for a row that has the cell. */
  function CellTruthy(c: string): Row -> bool
  {
    row => c in row && Truthy(row[c])
  }

  function CountLoop(rows: seq<Row>, c: string): Result<int, Error>
    decreases |rows|
  {
    if |rows| == 0 then Success(0)
    else
      var v :- Field(rows[0], c);
      var rest :- CountLoop(rows[1..], c);
      Success((if Truthy(v) then 1 else 0) + rest)
  }

  /** `count_interests(rows)`: the number of rows whose `interest` cell is
      truthy. */
  function CountInterests(rows: seq<Row>): Result<Value, Error>
  {
    var n :- CountLoop(rows, "interest");
    Success(Int(n))
  }

  lemma {:induction false} CountLoopSpec(rows: seq<Row>, c: string)
    ensures CountLoop(rows, c).Success? <==> forall i | 0 <= i < |rows| :: c in rows[i]
    ensures CountLoop(rows, c).Failure? ==> CountLoop(rows, c).error == KeyError
    ensures CountLoop(rows, c).Success? ==> CountLoop(rows, c).value == |Filter(rows, CellTruthy(c))|
  {
    if |rows| > 0 {
      CountLoopSpec(rows[1..], c);
      assert forall i | 1 <= i < |rows| :: rows[i] == rows[1..][i - 1];
    }
  }

  /** `count_interests` raises KeyError exactly when a row lacks the
      `interest` cell; otherwise it counts the rows with a truthy interest,
      at most all of them (what `length` returns). */
  lemma CountInterestsSpec(rows: seq<Row>)
    ensures CountInterests(rows).Success? <==> forall i | 0 <= i < |rows| :: "interest" in rows[i]
    ensures CountInterests(rows).Failure? ==> CountInterests(rows).error == KeyError
    ensures CountInterests(rows).Success? ==>
              && CountInterests(rows).value == Int(|Filter(rows, CellTruthy("interest"))|)
              && CountInterests(rows).value.i <= Length(rows).i
  {
    CountLoopSpec(rows, "interest");
  }

  /** `length` as a `groupby` aggregate column named `n`. */
  function CountColumn(n: string): Aggregate
  {
    Derived(n, (rows: seq<Row>) => Success(Length(rows)), IntType)
  }

  function GroupSizes(gs: seq<Group<seq<Canonical>, Row>>): (ns: seq<int>)
    ensures |ns| == |gs|
  {
    seq(|gs|, i requires 0 <= i < |gs| => |gs[i].items|)
  }

  lemma {:induction false} GroupSizesSum(gs: seq<Group<seq<Canonical>, Row>>)
    ensures Sum(GroupSizes(gs)) == TotalSize(gs)
  {
    if |gs| > 0 {
      GroupSizesSum(gs[1..]);
      assert GroupSizes(gs) == [|gs[0].items|] + GroupSizes(gs[1..]);
    }
  }

  /** The default `having`, which keeps every group. */
  function KeepAll(): seq<Row> -> bool
  {
    _ => true
  }

  /** The integers of column `n` of a table's rows (0 where there is
      none). */
  function IntColumn(u: Table, n: string): (xs: seq<int>)
    ensures |xs| == |u.rows|
  {
    seq(|u.rows|, i requires 0 <= i < |u.rows| =>
          if n in u.rows[i] && u.rows[i][n].Int? then u.rows[i][n].i else 0)
  }

  /** Each output row of a count-only `groupby` holds the size of the group
      it comes from, the groups being those that pass `having`. */
  lemma GroupCountCells(t: Table, gcols: seq<string>, n: string, having: seq<Row> -> bool)
    requires Valid(t) && n !in gcols
    requires GroupBy(t, gcols, [CountColumn(n)], having).Success?
    ensures var u := GroupBy(t, gcols, [CountColumn(n)], having).value;
            var ks := Kept(t, gcols, having);
            && |u.rows| == |ks|
            && forall i | 0 <= i < |u.rows| :: n in u.rows[i] && u.rows[i][n] == Int(|ks[i].items|)
  {
    var aggs := [CountColumn(n)];
    var u := GroupBy(t, gcols, aggs, having).value;
    var ks := Kept(t, gcols, having);
    assert DerivedNames(aggs) == [n];
    assert LastOccurrence(u.columns, |gcols|);
    forall i | 0 <= i < |u.rows|
      ensures n in u.rows[i] && u.rows[i][n] == Int(|ks[i].items|)
    {
      GroupByRow(t, gcols, aggs, having, i);
    }
  }

  /** `SELECT COUNT(*) ... GROUP BY ... HAVING ...`: the counts in the
      output rows add up to the number of rows in the groups that pass
      `having`. */
  lemma GroupCountsSumKept(t: Table, gcols: seq<string>, n: string, having: seq<Row> -> bool)
    requires Valid(t) && n !in gcols
    requires GroupBy(t, gcols, [CountColumn(n)], having).Success?
    ensures Sum(IntColumn(GroupBy(t, gcols, [CountColumn(n)], having).value, n)) ==
            Sum(GroupSizes(Kept(t, gcols, having)))
  {
    var u := GroupBy(t, gcols, [CountColumn(n)], having).value;
    GroupCountCells(t, gcols, n, having);
    assert IntColumn(u, n) == GroupSizes(Kept(t, gcols, having));
  }

  /** With no `having` filter the counts add up to the number of rows in
      the table. */
  lemma GroupCountsSumToRows(t: Table, gcols: seq<string>, n: string)
    requires Valid(t) && n !in gcols
    requires GroupBy(t, gcols, [CountColumn(n)], KeepAll()).Success?
    ensures Sum(IntColumn(GroupBy(t, gcols, [CountColumn(n)], KeepAll()).value, n)) == |t.rows|
  {
    var gs := Groups(t, gcols);
    GroupCountsSumKept(t, gcols, n, KeepAll());
    assert Kept(t, gcols, KeepAll()) == gs by {
      FilterAll(gs, Passes(KeepAll()));
    }
    GroupSizesSum(gs);
    GroupsPartition(t, gcols);
  }
}
