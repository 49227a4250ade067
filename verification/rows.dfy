/** Rows of a table. The engine stores every row as a Python dict built by
    zipping the column names with the values, and reads cells back by name. */
module Rows {
  import opened PyValues
  import opened Seqs

  /** A row: a dict from column name to cell. */
  type Row = map<string, Value>

  function ColumnSet(cols: seq<string>): set<string>
  {
    set c | c in cols
  }

  /** No later column carries the same name as column `i`. */
  predicate LastOccurrence(cols: seq<string>, i: int)
    requires 0 <= i < |cols|
  {
    forall j | i < j < |cols| :: cols[j] != cols[i]
  }

  /** `dict(zip(cols, vals))`: the row has exactly the named columns, and
      when a name repeats, its last value wins. */
  function Zip(cols: seq<string>, vals: seq<Value>): (r: Row)
    requires |cols| == |vals|
    ensures r.Keys == ColumnSet(cols)
  {
    if |cols| == 0 then map[]
    else
      var n := |cols| - 1;
      assert ColumnSet(cols) == ColumnSet(cols[..n]) + {cols[n]} by {
        assert cols == cols[..n] + [cols[n]];
      }
      Zip(cols[..n], vals[..n])[cols[n] := vals[n]]
  }

  /** A column whose name does not repeat later holds its own value. */
  lemma {:induction false} ZipAt(cols: seq<string>, vals: seq<Value>, i: nat)
    requires |cols| == |vals|
    requires i < |cols| && LastOccurrence(cols, i)
    ensures Zip(cols, vals)[cols[i]] == vals[i]
  {
    var n := |cols| - 1;
    if i < n {
      assert LastOccurrence(cols[..n], i);
      ZipAt(cols[..n], vals[..n], i);
    }
  }

  /** `row[c]`. Every call site has `c` among the row's keys; the `Null`
      branch is never taken there. */
  function Get(r: Row, c: string): Value
  {
    if c in r then r[c] else Null
  }

  /** `[row[c] for c in cols]`. */
  function Values(r: Row, cols: seq<string>): (vs: seq<Value>)
    ensures |vs| == |cols|
    ensures forall i | 0 <= i < |cols| :: vs[i] == Get(r, cols[i])
  {
    seq(|cols|, i requires 0 <= i < |cols| => Get(r, cols[i]))
  }

  /** Reading a row's cells back and zipping them again gives the row
      restricted to the columns read. */
  lemma {:induction false} ZipValuesRestrict(r: Row, cols: seq<string>)
    requires ColumnSet(cols) <= r.Keys
    ensures Zip(cols, Values(r, cols)) == map c | c in ColumnSet(cols) :: r[c]
  {
    if |cols| > 0 {
      var n := |cols| - 1;
      assert ColumnSet(cols) == ColumnSet(cols[..n]) + {cols[n]};
      assert Values(r, cols)[..n] == Values(r, cols[..n]);
      ZipValuesRestrict(r, cols[..n]);
    }
  }

  /** Copying a row through its values (what `where`, `limit` and `select`
      do before re-inserting) reproduces it exactly. */
  lemma ZipValues(r: Row, cols: seq<string>)
    requires r.Keys == ColumnSet(cols)
    ensures Zip(cols, Values(r, cols)) == r
  {
    ZipValuesRestrict(r, cols);
  }

  /** With distinct column names, zipping and reading back is lossless. */
  lemma ValuesZip(cols: seq<string>, vals: seq<Value>)
    requires |cols| == |vals|
    requires Distinct(cols)
    ensures Values(Zip(cols, vals), cols) == vals
  {
    var r := Zip(cols, vals);
    forall i | 0 <= i < |cols|
      ensures Values(r, cols)[i] == vals[i]
    {
      ZipAt(cols, vals, i);
    }
  }

  /** Python dict equality `a == b`: same keys, and values equal under `==`. */
  predicate RowEq(a: Row, b: Row)
  {
    a.Keys == b.Keys && forall c | c in a :: PyEq(a[c], b[c])
  }
}
