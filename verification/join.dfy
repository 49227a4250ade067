/** `join` of pkg/dbtable/dbms.py: a nested-loop equi-join on the columns
    the two tables share. For every row of the left table, `where` selects
    the matching rows of the right table, and each match is inserted as the
    left row's cells followed by the match's cells in the right-only
    columns; a left join pads an unmatched row with empty strings. */
module Joins {
  import opened Results
  import opened Seqs
  import opened PyValues
  import opened Rows
  import opened Tables

  function InCols(cols: seq<string>): string -> bool
  {
    c => c in cols
  }

  /** `join_on_cols`: the left table's columns the right table also has,
      in the left table's order. */
  function JoinCols(t: Table, o: Table): seq<string>
  {
    Filter(t.columns, InCols(o.columns))
  }

  /** `additional_cols`: the right table's other columns, in its order. */
  function ExtraCols(t: Table, o: Table): seq<string>
  {
    Filter(o.columns, Not(InCols(JoinCols(t, o))))
  }

  lemma ExtraColsKnown(t: Table, o: Table)
    ensures forall j | 0 <= j < |ExtraCols(t, o)| :: ExtraCols(t, o)[j] in o.columns
  {
  }

  /** The right table's types of the extra columns, by `col2type`. */
  function ExtraTypes(t: Table, o: Table): (ts: seq<ColType>)
    requires |o.columns| == |o.types|
    ensures |ts| == |ExtraCols(t, o)|
  {
    var ac := ExtraCols(t, o);
    seq(|ac|, j requires 0 <= j < |ac| => TypeOf(o, ac[j]))
  }

  /** `isjoin`: a right row matches a left row when their cells in every
      join column are equal under Python `==`. */
  function JoinsWith(jc: seq<string>, row: Row): Row -> bool
  {
    orow => forall j | 0 <= j < |jc| :: PyEq(Get(orow, jc[j]), Get(row, jc[j]))
  }

  /** The right rows matching a left row, in the right table's order. */
  function Matches(t: Table, o: Table, row: Row): seq<Row>
  {
    Filter(o.rows, JoinsWith(JoinCols(t, o), row))
  }

  /** `['' for _ in additional_cols]`. */
  function Blanks(n: nat): (vs: seq<Value>)
    ensures |vs| == n && forall j | 0 <= j < n :: vs[j] == Str("")
  {
    seq(n, _ => Str(""))
  }

  /** The value list inserted for a left row and one of its matches. */
  function Combine(t: Table, o: Table, row: Row, orow: Row): (vs: seq<Value>)
    ensures |vs| == |t.columns| + |ExtraCols(t, o)|
  {
    Values(row, t.columns) + Values(orow, ExtraCols(t, o))
  }

  /** The value lists one left row produces: one per match, and with
      `left_join` a padded one when there is no match. */
  function RowOut(t: Table, o: Table, left: bool, row: Row): (out: seq<seq<Value>>)
    ensures forall k | 0 <= k < |out| :: |out[k]| == |t.columns| + |ExtraCols(t, o)|
  {
    var m := Matches(t, o, row);
    seq(|m|, k requires 0 <= k < |m| => Combine(t, o, row, m[k])) +
    (if left && |m| == 0 then [Values(row, t.columns) + Blanks(|ExtraCols(t, o)|)] else [])
  }

  /** The value lists the loop inserts for `rows`, in order. */
  function Outputs(t: Table, o: Table, left: bool, rows: seq<Row>): (out: seq<seq<Value>>)
    ensures forall k | 0 <= k < |out| :: |out[k]| == |t.columns| + |ExtraCols(t, o)|
  {
    if |rows| == 0 then [] else RowOut(t, o, left, rows[0]) + Outputs(t, o, left, rows[1..])
  }

  /** The (still empty) joined table. */
  function JoinTarget(t: Table, o: Table): (e: Table)
    requires |t.columns| == |t.types| && |o.columns| == |o.types|
    ensures Valid(e) && e.rows == [] && |e.types| == |t.columns| + |ExtraCols(t, o)|
  {
    Table(t.columns + ExtraCols(t, o), t.types + ExtraTypes(t, o), [])
  }

  /** Every right row that matches is copyable by `where` (holds no
      `None`). */
  predicate MatchesCopyable(t: Table, o: Table, row: Row)
    requires Valid(o)
  {
    forall i | 0 <= i < |o.rows| && JoinsWith(JoinCols(t, o), row)(o.rows[i]) ::
      Fits(o.types, Values(o.rows[i], o.columns))
  }

  /** The `for row in self.rows` loop, from table `jt` on: `where` on the
      right table, then the inserts of the row's outputs. */
  function JoinLoop(jt: Table, t: Table, o: Table, left: bool, rows: seq<Row>): Result<Table, Error>
    requires Valid(jt) && Valid(o)
    requires |jt.types| == |t.columns| + |ExtraCols(t, o)|
    decreases |rows|
  {
    if |rows| == 0 then Success(jt)
    else
      var _ :- Where(o, JoinsWith(JoinCols(t, o), rows[0]));
      var next :- InsertAll(jt, RowOut(t, o, left, rows[0]));
      JoinLoop(next, t, o, left, rows[1..])
  }

  /** One turn of the loop: it fails with TypeError when `where` or an
      insert does, and otherwise continues from the extended table. */
  lemma JoinLoopStep(jt: Table, t: Table, o: Table, left: bool, rows: seq<Row>)
    requires Valid(jt) && Valid(o)
    requires |jt.types| == |t.columns| + |ExtraCols(t, o)|
    requires |rows| > 0
    ensures var out := RowOut(t, o, left, rows[0]);
            JoinLoop(jt, t, o, left, rows) ==
              if !MatchesCopyable(t, o, rows[0]) then Failure(TypeError)
              else if InsertAll(jt, out).Failure? then Failure(TypeError)
              else JoinLoop(InsertAll(jt, out).value, t, o, left, rows[1..])
  {
    var p := JoinsWith(JoinCols(t, o), rows[0]);
    var w := Where(o, p);
    assert w.Success? <==> MatchesCopyable(t, o, rows[0]);
    var out := RowOut(t, o, left, rows[0]);
    if w.Success? {
      var n := InsertAll(jt, out);
      assert n.Failure? ==> n.error == TypeError;
    }
  }

  /** Every left row's matches are copyable. */
  predicate AllCopyable(t: Table, o: Table, rows: seq<Row>)
    requires Valid(o)
  {
    forall i | 0 <= i < |rows| :: MatchesCopyable(t, o, rows[i])
  }

  lemma OutputsCons(t: Table, o: Table, left: bool, rows: seq<Row>)
    requires Valid(o) && |rows| > 0
    ensures Outputs(t, o, left, rows) == RowOut(t, o, left, rows[0]) + Outputs(t, o, left, rows[1..])
    ensures AllCopyable(t, o, rows) <==> (MatchesCopyable(t, o, rows[0]) && AllCopyable(t, o, rows[1..]))
  {
    AllCopyableCons(t, o, rows);
  }

  lemma AllCopyableCons(t: Table, o: Table, rows: seq<Row>)
    requires Valid(o) && |rows| > 0
    ensures AllCopyable(t, o, rows) <==> (MatchesCopyable(t, o, rows[0]) && AllCopyable(t, o, rows[1..]))
  {
    var tail := rows[1..];
    assert forall i | 0 <= i < |tail| :: tail[i] == rows[i + 1];
  }

  /** The loop raises nothing but TypeError. */
  lemma {:induction false} JoinLoopError(jt: Table, t: Table, o: Table, left: bool, rows: seq<Row>)
    requires Valid(jt) && Valid(o)
    requires |jt.types| == |t.columns| + |ExtraCols(t, o)|
    ensures JoinLoop(jt, t, o, left, rows).Failure? ==> JoinLoop(jt, t, o, left, rows).error == TypeError
    decreases |rows|
  {
    if |rows| > 0 {
      JoinLoopStep(jt, t, o, left, rows);
      var out := RowOut(t, o, left, rows[0]);
      if MatchesCopyable(t, o, rows[0]) && InsertAll(jt, out).Success? {
        JoinLoopError(InsertAll(jt, out).value, t, o, left, rows[1..]);
      }
    }
  }

  /** The loop succeeds exactly when `where` can copy every left row's
      matches and every output fits the joined types. */
  lemma {:induction false} JoinLoopSucceeds(jt: Table, t: Table, o: Table, left: bool, rows: seq<Row>)
    requires Valid(jt) && Valid(o)
    requires |jt.types| == |t.columns| + |ExtraCols(t, o)|
    ensures JoinLoop(jt, t, o, left, rows).Success? <==>
              AllCopyable(t, o, rows) && AllFit(jt.types, Outputs(t, o, left, rows))
    decreases |rows|
  {
    if |rows| > 0 {
      JoinLoopStep(jt, t, o, left, rows);
      OutputsCons(t, o, left, rows);
      var out := RowOut(t, o, left, rows[0]);
      var rest := Outputs(t, o, left, rows[1..]);
      AllFitAppend(jt.types, out, rest);
      if MatchesCopyable(t, o, rows[0]) && InsertAll(jt, out).Success? {
        JoinLoopSucceeds(InsertAll(jt, out).value, t, o, left, rows[1..]);
      }
    }
  }

  /** On success the loop has appended the outputs of all rows, in order. */
  lemma {:induction false} JoinLoopRows(jt: Table, t: Table, o: Table, left: bool, rows: seq<Row>)
    requires Valid(jt) && Valid(o)
    requires |jt.types| == |t.columns| + |ExtraCols(t, o)|
    requires JoinLoop(jt, t, o, left, rows).Success?
    ensures var u := JoinLoop(jt, t, o, left, rows).value;
            && Valid(u) && u.columns == jt.columns && u.types == jt.types
            && u.rows == jt.rows + ZipAll(jt.columns, Outputs(t, o, left, rows))
    decreases |rows|
  {
    if |rows| == 0 {
      assert jt.rows + ZipAll(jt.columns, []) == jt.rows;
    } else {
      JoinLoopStep(jt, t, o, left, rows);
      OutputsCons(t, o, left, rows);
      var out := RowOut(t, o, left, rows[0]);
      var rest := Outputs(t, o, left, rows[1..]);
      var next := InsertAll(jt, out).value;
      assert next.columns == jt.columns && next.types == jt.types;
      assert next.rows == jt.rows + ZipAll(jt.columns, out);
      var u := JoinLoop(next, t, o, left, rows[1..]).value;
      assert JoinLoop(jt, t, o, left, rows).value == u;
      JoinLoopRows(next, t, o, left, rows[1..]);
      var all := Outputs(t, o, left, rows);
      assert all == out + rest;
      ZipAllAppend(jt.columns, out, rest);
      var zo, zr := ZipAll(jt.columns, out), ZipAll(jt.columns, rest);
      assert ZipAll(jt.columns, all) == zo + zr;
      assert u.rows == (jt.rows + zo) + zr;
      ConcatAssoc(jt.rows, zo, zr);
    }
  }

  /** `join(other_table, left_join)`: every failure (a `None` met by
      `where` or by an insert, or a padded `''` in a non-`str` column) is a
      TypeError; on success the schema is the left columns and types
      followed by the right-only columns with their right types, and the
      rows are the outputs of the left rows, in order. */
  function Join(t: Table, o: Table, left: bool): (r: Result<Table, Error>)
    requires Valid(t) && Valid(o)
    ensures r.Failure? ==> r.error == TypeError
    ensures r.Success? <==>
              AllCopyable(t, o, t.rows) && AllFit(t.types + ExtraTypes(t, o), Outputs(t, o, left, t.rows))
    ensures r.Success? ==> && Valid(r.value)
                           && r.value.columns == t.columns + ExtraCols(t, o)
                           && r.value.types == t.types + ExtraTypes(t, o)
                           && r.value.rows == ZipAll(r.value.columns, Outputs(t, o, left, t.rows))
  {
    var jt := JoinTarget(t, o);
    JoinLoopError(jt, t, o, left, t.rows);
    JoinLoopSucceeds(jt, t, o, left, t.rows);
    var r := JoinLoop(jt, t, o, left, t.rows);
    if r.Success? then
      JoinLoopRows(jt, t, o, left, t.rows);
      r
    else r
  }

  /** Which right columns the joined table gains: exactly the right
      table's columns the left table does not have. */
  lemma ExtraColsExactly(t: Table, o: Table, c: string)
    ensures c in ExtraCols(t, o) <==> c in o.columns && c !in t.columns
  {
    FilterMembership(t.columns, InCols(o.columns), c);
    FilterMembership(o.columns, Not(InCols(JoinCols(t, o))), c);
  }

  /** The nested loops' pairs of a left row with every right row. */
  function PairsWith(row: Row, orows: seq<Row>): (ps: seq<(Row, Row)>)
    ensures |ps| == |orows|
  {
    seq(|orows|, j requires 0 <= j < |orows| => (row, orows[j]))
  }

  /** The cross product of the left rows with the right rows, left row
      major, in table order. */
  function Product(rows: seq<Row>, orows: seq<Row>): (ps: seq<(Row, Row)>)
  {
    if |rows| == 0 then [] else PairsWith(rows[0], orows) + Product(rows[1..], orows)
  }

  /** The join condition on a pair. */
  function Joined(t: Table, o: Table): ((Row, Row)) -> bool
  {
    (pr: (Row, Row)) => JoinsWith(JoinCols(t, o), pr.0)(pr.1)
  }

  /** The value lists inserted for some pairs. */
  function CombineAll(t: Table, o: Table, ps: seq<(Row, Row)>): (out: seq<seq<Value>>)
    ensures |out| == |ps|
  {
    seq(|ps|, k requires 0 <= k < |ps| => Combine(t, o, ps[k].0, ps[k].1))
  }

  lemma CombineAllAppend(t: Table, o: Table, a: seq<(Row, Row)>, b: seq<(Row, Row)>)
    ensures CombineAll(t, o, a + b) == CombineAll(t, o, a) + CombineAll(t, o, b)
  {
    var l, r := CombineAll(t, o, a + b), CombineAll(t, o, a) + CombineAll(t, o, b);
    forall k | 0 <= k < |l|
      ensures l[k] == r[k]
    {
      if k >= |a| { assert (a + b)[k] == b[k - |a|]; }
    }
  }

  lemma PairsWithCons(row: Row, orows: seq<Row>)
    requires |orows| > 0
    ensures PairsWith(row, orows)[0] == (row, orows[0])
    ensures PairsWith(row, orows)[1..] == PairsWith(row, orows[1..])
  {
  }

  lemma {:induction false} PairsFilter(t: Table, o: Table, row: Row, orows: seq<Row>)
    ensures Filter(PairsWith(row, orows), Joined(t, o)) ==
            PairsWith(row, Filter(orows, JoinsWith(JoinCols(t, o), row)))
  {
    if |orows| > 0 {
      var q := JoinsWith(JoinCols(t, o), row);
      var ps := PairsWith(row, orows);
      PairsFilter(t, o, row, orows[1..]);
      PairsWithCons(row, orows);
      FilterCons(ps, Joined(t, o));
      FilterCons(orows, q);
      assert Joined(t, o)(ps[0]) == q(orows[0]);
      if q(orows[0]) {
        var f := Filter(orows, q);
        PairsWithCons(row, f);
        assert PairsWith(row, f) == [PairsWith(row, f)[0]] + PairsWith(row, f)[1..];
      }
    }
  }

  /** Without `left_join`, one row's outputs are its pairs that satisfy the
      join condition, combined. */
  lemma InnerRowOut(t: Table, o: Table, row: Row)
    ensures RowOut(t, o, false, row) == CombineAll(t, o, Filter(PairsWith(row, o.rows), Joined(t, o)))
  {
    PairsFilter(t, o, row, o.rows);
    var m := Matches(t, o, row);
    assert RowOut(t, o, false, row) == CombineAll(t, o, PairsWith(row, m));
  }

  /** Without `left_join`, the outputs are those of the cross product
      filtered by the join condition: the nested-loop join is the textbook
      inner join, in left-major order. */
  lemma {:induction false} InnerJoinIsFilteredProduct(t: Table, o: Table, rows: seq<Row>)
    ensures Outputs(t, o, false, rows) == CombineAll(t, o, Filter(Product(rows, o.rows), Joined(t, o)))
  {
    if |rows| > 0 {
      InnerJoinIsFilteredProduct(t, o, rows[1..]);
      InnerRowOut(t, o, rows[0]);
      var here := PairsWith(rows[0], o.rows);
      var there := Product(rows[1..], o.rows);
      FilterAppend(here, there, Joined(t, o));
      CombineAllAppend(t, o, Filter(here, Joined(t, o)), Filter(there, Joined(t, o)));
    }
  }

  lemma {:induction false} ProductSize(rows: seq<Row>, orows: seq<Row>)
    ensures |Product(rows, orows)| == |rows| * |orows|
  {
    if |rows| > 0 {
      ProductSize(rows[1..], orows);
    }
  }

  /** With no column in common every pair joins: the inner join is the
      cross product, with `|t.rows| * |o.rows|` outputs. */
  lemma NoSharedColumns(t: Table, o: Table)
    requires forall c | c in t.columns :: c !in o.columns
    ensures Outputs(t, o, false, t.rows) == CombineAll(t, o, Product(t.rows, o.rows))
    ensures |Outputs(t, o, false, t.rows)| == |t.rows| * |o.rows|
  {
    assert JoinCols(t, o) == [] by {
      if JoinCols(t, o) != [] {
        FilterMembership(t.columns, InCols(o.columns), JoinCols(t, o)[0]);
      }
    }
    InnerJoinIsFilteredProduct(t, o, t.rows);
    var ps := Product(t.rows, o.rows);
    forall k | 0 <= k < |ps|
      ensures Joined(t, o)(ps[k])
    {
      assert JoinsWith([], ps[k].0)(ps[k].1);
    }
    FilterAll(ps, Joined(t, o));
    ProductSize(t.rows, o.rows);
  }

  /** `left_join` only adds the padded output of a row without matches. */
  lemma LeftRowOut(t: Table, o: Table, row: Row)
    ensures Matches(t, o, row) != [] ==> RowOut(t, o, true, row) == RowOut(t, o, false, row)
    ensures Matches(t, o, row) == [] ==>
              && RowOut(t, o, false, row) == []
              && RowOut(t, o, true, row) == [Values(row, t.columns) + Blanks(|ExtraCols(t, o)|)]
  {
  }

  /** With `left_join` every left row yields at least one output, so the
      left join has at least as many outputs as rows and as the inner join. */
  lemma {:induction false} LeftJoinCovers(t: Table, o: Table, rows: seq<Row>)
    ensures |Outputs(t, o, true, rows)| >= |rows|
    ensures |Outputs(t, o, true, rows)| >= |Outputs(t, o, false, rows)|
  {
    if |rows| > 0 {
      LeftJoinCovers(t, o, rows[1..]);
      LeftRowOut(t, o, rows[0]);
    }
  }

  /** When every left row has a match, the left join equals the inner
      join. */
  lemma {:induction false} LeftJoinAllMatched(t: Table, o: Table, rows: seq<Row>)
    requires forall i | 0 <= i < |rows| :: Matches(t, o, rows[i]) != []
    ensures Outputs(t, o, true, rows) == Outputs(t, o, false, rows)
  {
    if |rows| > 0 {
      var tail := rows[1..];
      assert forall i | 0 <= i < |tail| :: tail[i] == rows[i + 1];
      LeftJoinAllMatched(t, o, tail);
      LeftRowOut(t, o, rows[0]);
    }
  }

  /** A left row without a match makes the left join longer than the inner
      join: its padded output has no inner counterpart. */
  lemma {:induction false} LeftJoinUnmatchedLonger(t: Table, o: Table, rows: seq<Row>, i: nat)
    requires i < |rows| && Matches(t, o, rows[i]) == []
    ensures |Outputs(t, o, true, rows)| > |Outputs(t, o, false, rows)|
  {
    LeftRowOut(t, o, rows[0]);
    if i == 0 {
      LeftJoinCovers(t, o, rows[1..]);
    } else {
      LeftJoinUnmatchedLonger(t, o, rows[1..], i - 1);
    }
  }

  /** The left and inner joins give the same outputs, and equally many,
      exactly when every left row has a match. */
  lemma LeftJoinEqualsInnerIff(t: Table, o: Table, rows: seq<Row>)
    ensures Outputs(t, o, true, rows) == Outputs(t, o, false, rows) <==>
            forall i | 0 <= i < |rows| :: Matches(t, o, rows[i]) != []
    ensures |Outputs(t, o, true, rows)| == |Outputs(t, o, false, rows)| <==>
            forall i | 0 <= i < |rows| :: Matches(t, o, rows[i]) != []
  {
    if forall i | 0 <= i < |rows| :: Matches(t, o, rows[i]) != [] {
      LeftJoinAllMatched(t, o, rows);
    } else {
      var i :| 0 <= i < |rows| && Matches(t, o, rows[i]) == [];
      LeftJoinUnmatchedLonger(t, o, rows, i);
    }
  }

  lemma {:induction false} RowOutInOutputs(t: Table, o: Table, left: bool, rows: seq<Row>, i: nat, vs: seq<Value>)
    requires i < |rows| && vs in RowOut(t, o, left, rows[i])
    ensures vs in Outputs(t, o, left, rows)
  {
    if i > 0 {
      RowOutInOutputs(t, o, left, rows[1..], i - 1, vs);
    }
  }

  /** A padded output does not fit when a right-only column is not of type
      `str`: its cell holds the empty string. */
  lemma PaddedMisfits(t: Table, o: Table, row: Row, j: nat)
    requires Valid(t) && Valid(o)
    requires j < |ExtraCols(t, o)| && ExtraTypes(t, o)[j] != StrType
    ensures !Fits(t.types + ExtraTypes(t, o), Values(row, t.columns) + Blanks(|ExtraCols(t, o)|))
  {
    var pad := Values(row, t.columns) + Blanks(|ExtraCols(t, o)|);
    var types := t.types + ExtraTypes(t, o);
    assert pad[|t.columns| + j] == Str("");
    assert types[|t.columns| + j] == ExtraTypes(t, o)[j];
  }

  /** One misfitting output is enough to break `AllFit`. */
  lemma MisfitBreaksAll(types: seq<ColType>, valss: seq<seq<Value>>, vs: seq<Value>)
    requires vs in valss && !Fits(types, vs)
    ensures !AllFit(types, valss)
  {
  }

  /** The padding is the empty string, so a left join raises TypeError as
      soon as a left row has no match while some right-only column is not
      of type `str`. */
  lemma LeftJoinPaddingFails(t: Table, o: Table, i: nat, j: nat)
    requires Valid(t) && Valid(o)
    requires i < |t.rows| && Matches(t, o, t.rows[i]) == []
    requires j < |ExtraCols(t, o)| && ExtraTypes(t, o)[j] != StrType
    ensures Join(t, o, true) == Failure(TypeError)
  {
    var row := t.rows[i];
    var pad := Values(row, t.columns) + Blanks(|ExtraCols(t, o)|);
    LeftRowOut(t, o, row);
    RowOutInOutputs(t, o, true, t.rows, i, pad);
    PaddedMisfits(t, o, row, j);
    MisfitBreaksAll(t.types + ExtraTypes(t, o), Outputs(t, o, true, t.rows), pad);
  }
}
