/** `groupby` of pkg/dbtable/dbms.py. Rows are collected into a dict keyed
    by the tuple of their group-column cells; then, in the dict's order, the
    group of every key whose rows pass `having` becomes one output row: the
    key, followed by each aggregate applied to the group's rows. */
module Grouping {
  import opened Results
  import opened Seqs
  import opened PyValues
  import opened Rows
  import opened Tables
  import opened Collectors
  import opened Selection

  /** An entry of `aggregates`: the output cell is computed from a group's
      rows, and the callable may raise. */
  type Aggregate = Derived<seq<Row> -> Result<Value, Error>>

  /** The dict key of a row: the tuple of its group-column cells, as
      Python's `==` and `hash` see them (so `True`, `1` and `1.0` share a
      key). */
  function KeyOf(row: Row, gcols: seq<string>): seq<Canonical>
  {
    seq(|gcols|, j requires 0 <= j < |gcols| => Canon(Get(row, gcols[j])))
  }

  function GroupKey(gcols: seq<string>): Row -> seq<Canonical>
  {
    row => KeyOf(row, gcols)
  }

  /** Two rows share a dict key exactly when their group-column cells are
      pairwise equal under Python `==`. */
  lemma KeyOfEq(a: Row, b: Row, gcols: seq<string>)
    ensures KeyOf(a, gcols) == KeyOf(b, gcols) <==>
              forall j | 0 <= j < |gcols| :: PyEq(Get(a, gcols[j]), Get(b, gcols[j]))
  {
    var ka, kb := KeyOf(a, gcols), KeyOf(b, gcols);
    assert forall j | 0 <= j < |gcols| :: ka[j] == Canon(Get(a, gcols[j])) && kb[j] == Canon(Get(b, gcols[j]));
    if forall j | 0 <= j < |gcols| :: PyEq(Get(a, gcols[j]), Get(b, gcols[j])) {
      assert forall j | 0 <= j < |gcols| :: ka[j] == kb[j];
    }
  }

  /** `grouped_rows` after the first loop. */
  function Groups(t: Table, gcols: seq<string>): seq<Group<seq<Canonical>, Row>>
  {
    Collect(t.rows, GroupKey(gcols))
  }

  function Passes(having: seq<Row> -> bool): Group<seq<Canonical>, Row> -> bool
  {
    (g: Group<seq<Canonical>, Row>) => having(g.items)
  }

  /** The groups that produce an output row, in the dict's order. */
  function Kept(t: Table, gcols: seq<string>, having: seq<Row> -> bool): seq<Group<seq<Canonical>, Row>>
  {
    Filter(Groups(t, gcols), Passes(having))
  }

  /** The aggregates applied in order to one group's rows; the first one
      that raises ends the computation. */
  function AggValues(aggs: seq<Aggregate>, rows: seq<Row>): (r: Result<seq<Value>, Error>)
    ensures r.Success? <==> forall j | 0 <= j < |aggs| :: aggs[j].fn(rows).Success?
    ensures r.Success? ==> |r.value| == |aggs| &&
                           forall j | 0 <= j < |aggs| :: r.value[j] == aggs[j].fn(rows).value
    ensures r.Failure? ==> exists j | 0 <= j < |aggs| :: aggs[j].fn(rows) == Failure(r.error)
    decreases |aggs|
  {
    if |aggs| == 0 then Success([])
    else
      var v :- aggs[0].fn(rows);
      var rest :- AggValues(aggs[1..], rows);
      assert forall j | 1 <= j < |aggs| :: aggs[j] == aggs[1..][j - 1];
      Success([v] + rest)
  }

  /** A group's first row. Groups are never empty (`Collectors.CollectNonEmpty`),
      so the `map[]` branch is never taken. */
  function First(rows: seq<Row>): Row
  {
    if |rows| > 0 then rows[0] else map[]
  }

  /** `list(key)` followed by the aggregates' values. The dict keeps the
      key tuple of the group's first row. */
  function GroupRow(g: Group<seq<Canonical>, Row>, gcols: seq<string>, aggs: seq<Aggregate>): (r: Result<seq<Value>, Error>)
    ensures r.Success? ==> |r.value| == |gcols| + |aggs|
    ensures r.Success? <==> AggValues(aggs, g.items).Success?
  {
    var av :- AggValues(aggs, g.items);
    Success(Values(First(g.items), gcols) + av)
  }

  predicate AllRowsComputed(gs: seq<Group<seq<Canonical>, Row>>, gcols: seq<string>, aggs: seq<Aggregate>)
  {
    forall i | 0 <= i < |gs| :: GroupRow(gs[i], gcols, aggs).Success?
  }

  function GroupValues(gs: seq<Group<seq<Canonical>, Row>>, gcols: seq<string>, aggs: seq<Aggregate>): (valss: seq<seq<Value>>)
    requires AllRowsComputed(gs, gcols, aggs)
    ensures |valss| == |gs|
    ensures forall i | 0 <= i < |gs| :: valss[i] == GroupRow(gs[i], gcols, aggs).value
    ensures forall i | 0 <= i < |gs| :: |valss[i]| == |gcols| + |aggs|
  {
    seq(|gs|, i requires 0 <= i < |gs| => GroupRow(gs[i], gcols, aggs).value)
  }

  /** The second loop: for every group in turn, compute its row and insert
      it. */
  function Emit(tb: Table, gs: seq<Group<seq<Canonical>, Row>>, gcols: seq<string>, aggs: seq<Aggregate>): (r: Result<Table, Error>)
    requires Valid(tb) && |tb.types| == |gcols| + |aggs|
    ensures r.Success? ==> AllRowsComputed(gs, gcols, aggs)
    ensures AllRowsComputed(gs, gcols, aggs) ==> r == InsertAll(tb, GroupValues(gs, gcols, aggs))
    ensures r.Failure? ==> r.error == TypeError ||
                           exists i | 0 <= i < |gs| :: GroupRow(gs[i], gcols, aggs) == Failure(r.error)
    decreases |gs|
  {
    if |gs| == 0 then
      assert InsertAll(tb, []) == Success(tb);
      Success(tb)
    else
      var vals :- GroupRow(gs[0], gcols, aggs);
      var next :- Insert(tb, vals);
      var r := Emit(next, gs[1..], gcols, aggs);
      GroupValuesCons(gs, gcols, aggs);
      r
  }

  /** The rows of the groups are the first group's row followed by the
      rows of the rest. */
  lemma GroupValuesCons(gs: seq<Group<seq<Canonical>, Row>>, gcols: seq<string>, aggs: seq<Aggregate>)
    requires |gs| > 0
    ensures AllRowsComputed(gs, gcols, aggs) <==>
              GroupRow(gs[0], gcols, aggs).Success? && AllRowsComputed(gs[1..], gcols, aggs)
    ensures AllRowsComputed(gs, gcols, aggs) ==>
              GroupValues(gs, gcols, aggs) == [GroupRow(gs[0], gcols, aggs).value] + GroupValues(gs[1..], gcols, aggs)
  {
    assert forall i | 1 <= i < |gs| :: gs[i] == gs[1..][i - 1];
    if AllRowsComputed(gs, gcols, aggs) {
      assert GroupValues(gs, gcols, aggs)[1..] == GroupValues(gs[1..], gcols, aggs);
    }
  }

  /** The (still empty) table `groupby` creates. */
  function GroupTarget(t: Table, gcols: seq<string>, aggs: seq<Aggregate>): (e: Table)
    requires |t.columns| == |t.types|
    requires KnownColumns(t, gcols)
    ensures Valid(e) && e.rows == [] && |e.types| == |gcols| + |aggs|
  {
    Table(gcols + DerivedNames(aggs), KeepTypes(t, gcols) + DerivedTypes(aggs), [])
  }

  /** `groupby(groupby_cols, aggregates, having)`. A group column the table
      lacks raises KeyError while the rows are keyed, or, when there is no
      row, ValueError from `col2type`. Otherwise each kept group's row is
      computed and inserted in turn: an aggregate's exception, or TypeError
      from `insert`, ends the call. */
  function GroupBy(t: Table, gcols: seq<string>, aggs: seq<Aggregate>, having: seq<Row> -> bool): (r: Result<Table, Error>)
    requires Valid(t)
    ensures !KnownColumns(t, gcols) ==> r == Failure(if |t.rows| > 0 then KeyError else ValueError)
    ensures KnownColumns(t, gcols) && AllRowsComputed(Kept(t, gcols, having), gcols, aggs) ==>
              (r.Success? <==> forall i | 0 <= i < |Kept(t, gcols, having)| ::
                                 Fits(GroupTarget(t, gcols, aggs).types,
                                      GroupValues(Kept(t, gcols, having), gcols, aggs)[i]))
    ensures KnownColumns(t, gcols) && r.Failure? ==>
              r.error == TypeError ||
              exists i | 0 <= i < |Kept(t, gcols, having)| ::
                GroupRow(Kept(t, gcols, having)[i], gcols, aggs) == Failure(r.error)
    ensures r.Success? ==> && AllRowsComputed(Kept(t, gcols, having), gcols, aggs)
                           && Valid(r.value)
                           && r.value.columns == gcols + DerivedNames(aggs)
                           && r.value.types == KeepTypes(t, gcols) + DerivedTypes(aggs)
                           && r.value.rows == ZipAll(r.value.columns, GroupValues(Kept(t, gcols, having), gcols, aggs))
  {
    if !KnownColumns(t, gcols) then
      Failure(if |t.rows| > 0 then KeyError else ValueError)
    else
      Emit(GroupTarget(t, gcols, aggs), Kept(t, gcols, having), gcols, aggs)
  }

  /** The groups partition the rows: there is one group per distinct key,
      in the order keys are first seen; a group holds exactly the rows whose
      group-column cells equal (under Python `==`) those of its first row,
      in table order; and no row is lost or counted twice. */
  lemma GroupsPartition(t: Table, gcols: seq<string>)
    ensures var gs := Groups(t, gcols);
            && Keys(gs) == Dedup(Image(t.rows, GroupKey(gcols)))
            && (forall i | 0 <= i < |gs| :: |gs[i].items| > 0)
            && (forall i | 0 <= i < |gs| ::
                  gs[i].items == Filter(t.rows, KeyIs(GroupKey(gcols), KeyOf(gs[i].items[0], gcols))))
            && (forall i, j | 0 <= i < j < |gs| :: KeyOf(gs[i].items[0], gcols) != KeyOf(gs[j].items[0], gcols))
            && (forall x | x in t.rows :: x in Lookup(gs, KeyOf(x, gcols)))
            && TotalSize(gs) == |t.rows|
  {
    var gs := Groups(t, gcols);
    var f := GroupKey(gcols);
    CollectSpec(t.rows, f);
    CollectNonEmpty(t.rows, f);
    CollectTotalSize(t.rows, f);
    forall i | 0 <= i < |gs|
      ensures KeyOf(gs[i].items[0], gcols) == gs[i].key
    {
      assert gs[i].items[0] in Filter(t.rows, KeyIs(f, gs[i].key));
    }
    forall i, j | 0 <= i < j < |gs|
      ensures KeyOf(gs[i].items[0], gcols) != KeyOf(gs[j].items[0], gcols)
    {
      assert Keys(gs)[i] != Keys(gs)[j];
    }
    forall x | x in t.rows
      ensures x in Lookup(gs, KeyOf(x, gcols))
    {
      FilterMembership(t.rows, KeyIs(f, KeyOf(x, gcols)), x);
    }
  }

  /** What an output row holds for its group: a group column the cell of
      the group's first row, an aggregate column the aggregate of the
      group's rows, for every name that does not occur again further right
      in `cols`. */
  predicate RowOfGroup(row: Row, cols: seq<string>, g: Group<seq<Canonical>, Row>, gcols: seq<string>, aggs: seq<Aggregate>)
    requires |cols| == |gcols| + |aggs|
    requires GroupRow(g, gcols, aggs).Success?
  {
    && (forall j | 0 <= j < |gcols| && LastOccurrence(cols, j) ::
          gcols[j] in row && row[gcols[j]] == Get(First(g.items), gcols[j]))
    && (forall j | 0 <= j < |aggs| && LastOccurrence(cols, |gcols| + j) ::
          aggs[j].name in row && row[aggs[j].name] == aggs[j].fn(g.items).value)
  }

  /** The row a group becomes, zipped with the output columns: a group
      column holds the first row's cell, an aggregate column the
      aggregate's value (for a name that does not occur again further
      right). */
  lemma ZippedGroupRow(g: Group<seq<Canonical>, Row>, gcols: seq<string>, aggs: seq<Aggregate>)
    requires GroupRow(g, gcols, aggs).Success?
    ensures RowOfGroup(Zip(gcols + DerivedNames(aggs), GroupRow(g, gcols, aggs).value), gcols + DerivedNames(aggs), g, gcols, aggs)
  {
    var cols := gcols + DerivedNames(aggs);
    var vs := GroupRow(g, gcols, aggs).value;
    var av := AggValues(aggs, g.items).value;
    assert vs == Values(First(g.items), gcols) + av;
    forall j | 0 <= j < |gcols| && LastOccurrence(cols, j)
      ensures gcols[j] in Zip(cols, vs) && Zip(cols, vs)[gcols[j]] == Get(First(g.items), gcols[j])
    {
      ZipAt(cols, vs, j);
    }
    forall j | 0 <= j < |aggs| && LastOccurrence(cols, |gcols| + j)
      ensures aggs[j].name in Zip(cols, vs) && Zip(cols, vs)[aggs[j].name] == aggs[j].fn(g.items).value
    {
      ZipAt(cols, vs, |gcols| + j);
      assert cols[|gcols| + j] == DerivedNames(aggs)[j] == aggs[j].name;
      assert vs[|gcols| + j] == av[j] == aggs[j].fn(g.items).value;
    }
  }

  /** A kept group is a non-empty group of table rows that passed `having`. */
  lemma KeptGroup(t: Table, gcols: seq<string>, having: seq<Row> -> bool, i: nat)
    requires i < |Kept(t, gcols, having)|
    ensures var g := Kept(t, gcols, having)[i];
            |g.items| > 0 && g.items[0] in t.rows && having(g.items)
  {
    var gs := Groups(t, gcols);
    var g := Kept(t, gcols, having)[i];
    assert g in gs && Passes(having)(g);
    CollectNonEmpty(t.rows, GroupKey(gcols));
    CollectSpec(t.rows, GroupKey(gcols));
    var k :| 0 <= k < |gs| && gs[k] == g;
    assert g.items[0] in Filter(t.rows, KeyIs(GroupKey(gcols), g.key));
  }

  /** Row `i` of a successful `groupby` comes from the `i`-th kept group,
      a non-empty group of table rows that passed `having`: a group column
      holds the cell of the group's first row, and an aggregate column holds
      the aggregate of the group's rows (for a name that does not occur
      again further right). */
  lemma GroupByRow(t: Table, gcols: seq<string>, aggs: seq<Aggregate>, having: seq<Row> -> bool, i: nat)
    requires Valid(t)
    requires GroupBy(t, gcols, aggs, having).Success?
    requires i < |GroupBy(t, gcols, aggs, having).value.rows|
    ensures i < |Kept(t, gcols, having)|
    ensures var g := Kept(t, gcols, having)[i];
            |g.items| > 0 && g.items[0] in t.rows && having(g.items)
    ensures var g := Kept(t, gcols, having)[i];
            var u := GroupBy(t, gcols, aggs, having).value;
            GroupRow(g, gcols, aggs).Success? && RowOfGroup(u.rows[i], u.columns, g, gcols, aggs)
  {
    var u := GroupBy(t, gcols, aggs, having).value;
    var kept := Kept(t, gcols, having);
    var g := kept[i];
    var valss := GroupValues(kept, gcols, aggs);
    ZipAllAt(u.columns, valss, i);
    KeptGroup(t, gcols, having, i);
    ZippedGroupRow(g, gcols, aggs);
    assert KnownColumns(t, gcols);
    assert u.rows[i] == Zip(gcols + DerivedNames(aggs), GroupRow(g, gcols, aggs).value);
  }

  /** With no group column every row has the empty key: a non-empty table
      forms a single group holding all its rows, and an empty one none. */
  lemma NoGroupColumns(t: Table)
    ensures |t.rows| == 0 ==> Groups(t, []) == []
    ensures |t.rows| > 0 ==> Groups(t, []) == [Group([], t.rows)]
  {
    var f := GroupKey([]);
    assert forall x :: f(x) == [];
    CollectConstant(t.rows, f, []);
  }
}
