/** Sparse matrix multiplication with `map_reduce`
    (`matrix_multiply_mapper` and `matrix_multiply_reducer` of
    pytemp/mapred.py). An entry is a matrix name, a position and a value;
    entries are integers here. For the product cell `(x, y)` the mapper
    sends every entry of row `x` of A and of column `y` of B, tagged with
    the index they are summed over, and the reducer multiplies the two
    values that share an index. */
module MatrixMultiply {
  import opened Seqs
  import opened Collectors
  import opened MapReduce

  /** `Entry(name, i, j, value)`. Every name other than "A" is read as B. */
  datatype Entry = Entry(name: string, i: int, j: int, value: int)

  predicate IsA(e: Entry)
  {
    e.name == "A"
  }

  type Cell = (int, int)
  type Tagged = (int, int)

  /** `range(n)` has `max(n, 0)` elements. */
  function RangeLen(n: int): nat
  {
    if n < 0 then 0 else n
  }

  /** `matrix_multiply_mapper(nRows_a, nCols_b)`: an entry `(i, j, v)` of A
      goes to every cell `(i, y)` of its row of the product, tagged `(j, v)`;
      an entry `(i, j, v)` of B goes to every cell `(x, j)` of its column,
      tagged `(i, v)`. */
  function Mapper(nRowsA: int, nColsB: int): Entry -> seq<(Cell, Tagged)>
  {
    e =>
      if IsA(e) then seq(RangeLen(nColsB), y requires 0 <= y < RangeLen(nColsB) => ((e.i, y), (e.j, e.value)))
      else seq(RangeLen(nRowsA), x requires 0 <= x < RangeLen(nRowsA) => ((x, e.j), (e.i, e.value)))
  }

  /** The pairs an A entry emits are its row's cells, a B entry's its
      column's cells, each once. */
  lemma MapperCells(nRowsA: int, nColsB: int, e: Entry)
    ensures IsA(e) ==> |Mapper(nRowsA, nColsB)(e)| == RangeLen(nColsB)
    ensures !IsA(e) ==> |Mapper(nRowsA, nColsB)(e)| == RangeLen(nRowsA)
    ensures forall c: Cell, t: Tagged | (c, t) in Mapper(nRowsA, nColsB)(e) ::
              if IsA(e) then c.0 == e.i && 0 <= c.1 < nColsB && t == (e.j, e.value)
              else c.1 == e.j && 0 <= c.0 < nRowsA && t == (e.i, e.value)
  {
  }

  // The reducer.

  /** `a * b` for an index that received exactly two values, else 0. */
  function GroupProduct(g: Group<int, Tagged>): int
  {
    if |g.items| == 2 then g.items[0].1 * g.items[1].1 else 0
  }

  function Products(gs: seq<Group<int, Tagged>>): (ps: seq<int>)
    ensures |ps| == |gs|
    ensures forall i | 0 <= i < |gs| :: ps[i] == GroupProduct(gs[i])
  {
    seq(|gs|, i requires 0 <= i < |gs| => GroupProduct(gs[i]))
  }

  /** `sumproduct`: the values grouped by index (`results_by_index`), and
      the products of the groups of exactly two summed. */
  function SumProduct(vals: seq<Tagged>): int
  {
    Sum(Products(Collect(vals, Fst())))
  }

  /** `matrix_multiply_reducer(key, indexed_values)`: the cell with its
      sum of products, or nothing when that sum is zero. */
  function Reducer(key: Cell, vals: seq<Tagged>): (out: seq<(Cell, int)>)
    ensures |out| <= 1
    ensures out == [] <==> SumProduct(vals) == 0
    ensures out != [] ==> out[0] == (key, SumProduct(vals))
  {
    var s := SumProduct(vals);
    if s != 0 then [(key, s)] else []
  }

  /** The sum of the values tagged with index `k`. */
  function IndexSum(vals: seq<Tagged>, k: int): int
  {
    Sum(ValuesOf(Filter(vals, KeyIs(Fst(), k))))
  }

  /** Every value times every later value with the same index: the sum of
      products the reducer means, written without grouping. */
  function PairSum(vals: seq<Tagged>): int
  {
    if |vals| == 0 then 0 else vals[0].1 * IndexSum(vals[1..], vals[0].0) + PairSum(vals[1..])
  }

  lemma IndexSumCons(q: Tagged, r: seq<Tagged>, k: int)
    ensures IndexSum([q] + r, k) == (if q.0 == k then q.1 else 0) + IndexSum(r, k)
  {
    assert ([q] + r)[1..] == r;
    var f := Filter(r, KeyIs(Fst(), k));
    if q.0 == k {
      assert Filter([q] + r, KeyIs(Fst(), k)) == [q] + f;
      assert ValuesOf([q] + f) == [q.1] + ValuesOf(f);
    } else {
      assert Filter([q] + r, KeyIs(Fst(), k)) == f;
    }
  }

  lemma IndexSumSnoc(l: seq<Tagged>, p: Tagged, k: int)
    ensures IndexSum(l + [p], k) == IndexSum(l, k) + (if p.0 == k then p.1 else 0)
  {
    var f := Filter(l, KeyIs(Fst(), k));
    FilterSnoc(l, p, KeyIs(Fst(), k));
    if p.0 == k {
      assert Filter(l + [p], KeyIs(Fst(), k)) == f + [p];
      assert ValuesOf(f + [p]) == ValuesOf(f) + [p.1];
      SumAppend(ValuesOf(f), [p.1]);
      assert Sum([p.1]) == p.1;
    } else {
      assert Filter(l + [p], KeyIs(Fst(), k)) == f;
    }
  }

  lemma Distribute(x: int, y: int, z: int)
    ensures x * (y + z) == x * y + x * z
  {
  }

  lemma PairSumCons(q: Tagged, r: seq<Tagged>)
    ensures PairSum([q] + r) == q.1 * IndexSum(r, q.0) + PairSum(r)
  {
    assert ([q] + r)[0] == q && ([q] + r)[1..] == r;
  }

  /** Adding a value at the end pairs it with every earlier value of its
      index. */
  lemma {:induction false} PairSumSnoc(l: seq<Tagged>, p: Tagged)
    ensures PairSum(l + [p]) == PairSum(l) + p.1 * IndexSum(l, p.0)
  {
    if |l| == 0 {
      assert l + [p] == [p] + l;
      PairSumCons(p, l);
    } else {
      var q, r := l[0], l[1..];
      assert l == [q] + r;
      assert l + [p] == [q] + (r + [p]);
      PairSumCons(q, r + [p]);
      PairSumCons(q, r);
      PairSumSnoc(r, p);
      IndexSumSnoc(r, p, q.0);
      IndexSumCons(q, r, p.0);
      var a, b, ps := IndexSum(r, q.0), IndexSum(r, p.0), PairSum(r);
      if p.0 == q.0 {
        assert IndexSum(r + [p], q.0) == a + p.1;
        assert IndexSum(l, p.0) == q.1 + b;
        Regroup(q.1, p.1, a, b, true, ps);
      } else {
        assert IndexSum(r + [p], q.0) == a;
        assert IndexSum(l, p.0) == b;
      }
    }
  }

  lemma Regroup(u: int, v: int, a: int, b: int, same: bool, s: int)
    ensures u * (a + (if same then v else 0)) + (s + v * b) == (u * a + s) + v * ((if same then u else 0) + b)
  {
    var d1, d2 := if same then v else 0, if same then u else 0;
    assert u * d1 == v * d2;
    Distribute(u, a, d1);
    Distribute(v, d2, b);
  }

  /** No index is tagged more than twice. */
  ghost predicate AtMostTwice(vals: seq<Tagged>)
  {
    forall k :: |Filter(vals, KeyIs(Fst(), k))| <= 2
  }

  lemma CollectSnoc(pre: seq<Tagged>, p: Tagged)
    ensures Collect(pre + [p], Fst()) == Add(Collect(pre, Fst()), p.0, p)
  {
    var vals := pre + [p];
    assert vals[..|vals| - 1] == pre && vals[|vals| - 1] == p;
  }

  lemma ProductsJoin(gs: seq<Group<int, Tagged>>, i: nat, x: Tagged, p: Tagged)
    requires i < |gs| && gs[i].items == [x]
    ensures Sum(Products(gs[i := Group(gs[i].key, [x] + [p])])) == Sum(Products(gs)) + x.1 * p.1
  {
    var ps := Products(gs);
    assert Products(gs[i := Group(gs[i].key, [x] + [p])]) == ps[i := x.1 * p.1];
    SumUpdate(ps, i, x.1 * p.1);
  }

  /** A value whose index has one earlier value completes that index's
      pair. */
  lemma SumProductPairs(pre: seq<Tagged>, p: Tagged)
    requires |Filter(pre, KeyIs(Fst(), p.0))| == 1
    ensures SumProduct(pre + [p]) == SumProduct(pre) + p.1 * IndexSum(pre, p.0)
  {
    var gs := Collect(pre, Fst());
    CollectSnoc(pre, p);
    CollectSpec(pre, Fst());
    var i := Find(gs, p.0);
    var items := Lookup(gs, p.0);
    assert items == Filter(pre, KeyIs(Fst(), p.0));
    var x := items[0];
    assert i < |gs| && items == [x];
    assert IndexSum(pre, p.0) == x.1 by {
      assert ValuesOf(items) == [x.1];
      assert Sum([x.1]) == x.1;
    }
    ProductsJoin(gs, i, x, p);
    assert x.1 * p.1 == p.1 * x.1;
  }

  /** A value with a new index opens a group of one, which adds nothing. */
  lemma SumProductFresh(pre: seq<Tagged>, p: Tagged)
    requires Filter(pre, KeyIs(Fst(), p.0)) == []
    ensures SumProduct(pre + [p]) == SumProduct(pre)
  {
    var gs := Collect(pre, Fst());
    CollectSnoc(pre, p);
    CollectSpec(pre, Fst());
    assert Lookup(gs, p.0) == [];
    CollectNonEmpty(pre, Fst());
    assert Find(gs, p.0) == |gs|;
    assert Products(gs + [Group(p.0, [p])]) == Products(gs) + [0];
    SumAppend(Products(gs), [0]);
  }

  /** A value whose index has at most one earlier value adds its product
      with that value, if any, to the reducer's sum. */
  lemma SumProductSnoc(pre: seq<Tagged>, p: Tagged)
    requires |Filter(pre, KeyIs(Fst(), p.0))| <= 1
    ensures SumProduct(pre + [p]) == SumProduct(pre) + p.1 * IndexSum(pre, p.0)
  {
    if |Filter(pre, KeyIs(Fst(), p.0))| == 1 {
      SumProductPairs(pre, p);
    } else {
      SumProductFresh(pre, p);
      assert IndexSum(pre, p.0) == 0;
      assert p.1 * IndexSum(pre, p.0) == 0;
    }
  }

  /** When no index occurs more than twice, the reducer's grouped sum of
      products is the sum over all pairs of values sharing an index. */
  lemma {:induction false} SumProductIsPairSum(vals: seq<Tagged>)
    requires AtMostTwice(vals)
    ensures SumProduct(vals) == PairSum(vals)
  {
    if |vals| > 0 {
      var pre, p := vals[..|vals| - 1], vals[|vals| - 1];
      assert vals == pre + [p];
      assert AtMostTwice(pre) by {
        forall k
          ensures |Filter(pre, KeyIs(Fst(), k))| <= 2
        {
          FilterSnoc(pre, p, KeyIs(Fst(), k));
        }
      }
      FilterSnoc(pre, p, KeyIs(Fst(), p.0));
      assert |Filter(vals, KeyIs(Fst(), p.0))| <= 2;
      SumProductIsPairSum(pre);
      PairSumSnoc(pre, p);
      SumProductSnoc(pre, p);
    }
  }

  // What reaches one cell of the product.

  /** The tagged values one entry sends to cell `(x, y)`. */
  function TagsFrom(e: Entry, nRowsA: int, nColsB: int, x: int, y: int): seq<Tagged>
  {
    if IsA(e) then (if e.i == x && 0 <= y < nColsB then [(e.j, e.value)] else [])
    else (if e.j == y && 0 <= x < nRowsA then [(e.i, e.value)] else [])
  }

  function CellTags(es: seq<Entry>, nRowsA: int, nColsB: int, x: int, y: int): seq<Tagged>
  {
    if |es| == 0 then [] else TagsFrom(es[0], nRowsA, nColsB, x, y) + CellTags(es[1..], nRowsA, nColsB, x, y)
  }

  lemma MapperToCell(nRowsA: int, nColsB: int, e: Entry, x: int, y: int)
    ensures ValuesOf(Filter(Mapper(nRowsA, nColsB)(e), KeyIs(Fst(), (x, y)))) == TagsFrom(e, nRowsA, nColsB, x, y)
  {
    var s := Mapper(nRowsA, nColsB)(e);
    var p := KeyIs(Fst<Cell, Tagged>(), (x, y));
    if IsA(e) {
      if e.i == x && 0 <= y < nColsB {
        FilterOne(s, p, y);
      } else {
        FilterNone(s, p);
      }
    } else {
      if e.j == y && 0 <= x < nRowsA {
        FilterOne(s, p, x);
      } else {
        FilterNone(s, p);
      }
    }
  }

  lemma ValuesOfAppend<K, V>(a: seq<(K, V)>, b: seq<(K, V)>)
    ensures ValuesOf(a + b) == ValuesOf(a) + ValuesOf(b)
  {
  }

  /** The values `map_reduce` hands the reducer for cell `(x, y)` are the
      entries' tags for that cell, in input order. */
  lemma {:induction false} ValuesForCell(es: seq<Entry>, nRowsA: int, nColsB: int, x: int, y: int)
    ensures ValuesFor(es, Mapper(nRowsA, nColsB), (x, y)) == CellTags(es, nRowsA, nColsB, x, y)
  {
    var m := Mapper(nRowsA, nColsB);
    var p := KeyIs(Fst<Cell, Tagged>(), (x, y));
    if |es| > 0 {
      ValuesForCell(es[1..], nRowsA, nColsB, x, y);
      assert Emitted(es, m) == m(es[0]) + Emitted(es[1..], m);
      FilterAppend(m(es[0]), Emitted(es[1..], m), p);
      ValuesOfAppend(Filter(m(es[0]), p), Filter(Emitted(es[1..], m), p));
      MapperToCell(nRowsA, nColsB, es[0], x, y);
    }
  }

  // The reference product.

  /** `A[x][k]`: the sum of the A entries at `(x, k)`. */
  function ATerm(es: seq<Entry>, x: int, k: int): int
  {
    if |es| == 0 then 0
    else (if IsA(es[0]) && es[0].i == x && es[0].j == k then es[0].value else 0) + ATerm(es[1..], x, k)
  }

  /** `B[k][y]`: the sum of the B entries at `(k, y)`. */
  function BTerm(es: seq<Entry>, k: int, y: int): int
  {
    if |es| == 0 then 0
    else (if !IsA(es[0]) && es[0].i == k && es[0].j == y then es[0].value else 0) + BTerm(es[1..], k, y)
  }

  /** Every A entry of row `x` in `rs` times the B value of `bs` at its
      column's row and column `y`. */
  function RowTimes(rs: seq<Entry>, bs: seq<Entry>, x: int, y: int): int
  {
    if |rs| == 0 then 0
    else (if IsA(rs[0]) && rs[0].i == x then rs[0].value * BTerm(bs, rs[0].j, y) else 0) + RowTimes(rs[1..], bs, x, y)
  }

  /** `(A·B)[x][y]`, the sum over k of `A[x][k] * B[k][y]`, over the
      non-zero entries listed. */
  function ProductAt(es: seq<Entry>, x: int, y: int): int
  {
    RowTimes(es, es, x, y)
  }

  /** Each matrix lists a position at most once. */
  predicate UniquePositions(es: seq<Entry>)
  {
    forall a, b | 0 <= a < b < |es| :: IsA(es[a]) == IsA(es[b]) ==> es[a].i != es[b].i || es[a].j != es[b].j
  }

  /** A's rows lie in `range(nRows_a)` and B's columns in `range(nCols_b)`. */
  predicate InRange(es: seq<Entry>, nRowsA: int, nColsB: int)
  {
    forall a | 0 <= a < |es| :: if IsA(es[a]) then 0 <= es[a].i < nRowsA else 0 <= es[a].j < nColsB
  }

  /** The number of A entries at `(x, k)`. */
  function ANum(es: seq<Entry>, x: int, k: int): nat
  {
    if |es| == 0 then 0
    else (if IsA(es[0]) && es[0].i == x && es[0].j == k then 1 else 0) + ANum(es[1..], x, k)
  }

  /** The number of B entries at `(k, y)`. */
  function BNum(es: seq<Entry>, k: int, y: int): nat
  {
    if |es| == 0 then 0
    else (if !IsA(es[0]) && es[0].i == k && es[0].j == y then 1 else 0) + BNum(es[1..], k, y)
  }

  lemma {:induction false} AAbsent(es: seq<Entry>, x: int, k: int)
    requires forall a | 0 <= a < |es| :: !(IsA(es[a]) && es[a].i == x && es[a].j == k)
    ensures ATerm(es, x, k) == 0 && ANum(es, x, k) == 0
  {
    if |es| > 0 {
      AAbsent(es[1..], x, k);
    }
  }

  lemma {:induction false} BAbsent(es: seq<Entry>, k: int, y: int)
    requires forall a | 0 <= a < |es| :: !(!IsA(es[a]) && es[a].i == k && es[a].j == y)
    ensures BTerm(es, k, y) == 0 && BNum(es, k, y) == 0
  {
    if |es| > 0 {
      BAbsent(es[1..], k, y);
    }
  }

  /** The first entry's position occurs nowhere else in its matrix. */
  lemma UniqueSplit(es: seq<Entry>)
    requires |es| > 0 && UniquePositions(es)
    ensures UniquePositions(es[1..])
    ensures forall b | 0 <= b < |es[1..]| ::
              IsA(es[1..][b]) == IsA(es[0]) ==> es[1..][b].i != es[0].i || es[1..][b].j != es[0].j
  {
    assert forall b | 0 <= b < |es[1..]| :: es[1..][b] == es[b + 1];
  }

  /** Each matrix has at most one entry per position. */
  lemma {:induction false} UniqueCounts(es: seq<Entry>, x: int, k: int, y: int)
    requires UniquePositions(es)
    ensures ANum(es, x, k) <= 1 && BNum(es, k, y) <= 1
  {
    if |es| > 0 {
      var e, r := es[0], es[1..];
      UniqueSplit(es);
      UniqueCounts(r, x, k, y);
      if IsA(e) && e.i == x && e.j == k {
        AAbsent(r, x, k);
      }
      if !IsA(e) && e.i == k && e.j == y {
        BAbsent(r, k, y);
      }
    }
  }

  /** Inside the product, the values a cell receives with index `k` sum to
      `A[x][k] + B[k][y]`. */
  lemma {:induction false} IndexSumCell(es: seq<Entry>, nRowsA: int, nColsB: int, x: int, y: int, k: int)
    requires 0 <= x < nRowsA && 0 <= y < nColsB
    ensures IndexSum(CellTags(es, nRowsA, nColsB, x, y), k) == ATerm(es, x, k) + BTerm(es, k, y)
  {
    if |es| == 0 {
      assert Filter(CellTags(es, nRowsA, nColsB, x, y), KeyIs(Fst<int, int>(), k)) == [];
    } else {
      IndexSumCell(es[1..], nRowsA, nColsB, x, y, k);
      var t := CellTags(es[1..], nRowsA, nColsB, x, y);
      var tags := TagsFrom(es[0], nRowsA, nColsB, x, y);
      if tags != [] {
        assert CellTags(es, nRowsA, nColsB, x, y) == [tags[0]] + t;
        IndexSumCons(tags[0], t, k);
      } else {
        assert CellTags(es, nRowsA, nColsB, x, y) == t;
      }
    }
  }

  /** Inside the product, a cell receives one value with index `k` per A
      entry at `(x, k)` and per B entry at `(k, y)`. */
  lemma {:induction false} IndexCountCell(es: seq<Entry>, nRowsA: int, nColsB: int, x: int, y: int, k: int)
    requires 0 <= x < nRowsA && 0 <= y < nColsB
    ensures |Filter(CellTags(es, nRowsA, nColsB, x, y), KeyIs(Fst(), k))| == ANum(es, x, k) + BNum(es, k, y)
  {
    var p := KeyIs(Fst<int, int>(), k);
    if |es| > 0 {
      IndexCountCell(es[1..], nRowsA, nColsB, x, y, k);
      var t := CellTags(es[1..], nRowsA, nColsB, x, y);
      var tags := TagsFrom(es[0], nRowsA, nColsB, x, y);
      FilterAppend(tags, t, p);
      if tags != [] {
        assert Filter(tags, p) == if p(tags[0]) then [tags[0]] else [];
      }
    }
  }

  lemma {:induction false} RowTimesConsA(rs: seq<Entry>, e: Entry, bs: seq<Entry>, x: int, y: int)
    requires IsA(e)
    ensures RowTimes(rs, [e] + bs, x, y) == RowTimes(rs, bs, x, y)
  {
    if |rs| > 0 {
      RowTimesConsA(rs[1..], e, bs, x, y);
      assert ([e] + bs)[1..] == bs;
    }
  }

  /** A B entry at `(k, y)` adds its value times `A[x][k]` to cell `(x, y)`. */
  lemma {:induction false} RowTimesConsB(rs: seq<Entry>, e: Entry, bs: seq<Entry>, x: int, y: int)
    requires !IsA(e)
    ensures RowTimes(rs, [e] + bs, x, y) == RowTimes(rs, bs, x, y) + (if e.j == y then e.value * ATerm(rs, x, e.i) else 0)
  {
    if |rs| > 0 {
      var r0 := rs[0];
      RowTimesConsB(rs[1..], e, bs, x, y);
      assert ([e] + bs)[1..] == bs;
      if IsA(r0) && r0.i == x && e.j == y && r0.j == e.i {
        var bt := BTerm(bs, r0.j, y);
        assert BTerm([e] + bs, r0.j, y) == e.value + bt;
        Distribute(r0.value, e.value, bt);
        Distribute(e.value, r0.value, ATerm(rs[1..], x, e.i));
      }
    }
  }

  lemma EntriesCons(e: Entry, r: seq<Entry>, nRowsA: int, nColsB: int, x: int, y: int)
    ensures CellTags([e] + r, nRowsA, nColsB, x, y) == TagsFrom(e, nRowsA, nColsB, x, y) + CellTags(r, nRowsA, nColsB, x, y)
    ensures RowTimes([e] + r, [e] + r, x, y) ==
              (if IsA(e) && e.i == x then e.value * BTerm([e] + r, e.j, y) else 0) + RowTimes(r, [e] + r, x, y)
    ensures BTerm([e] + r, e.j, y) == (if !IsA(e) && e.i == e.j && e.j == y then e.value else 0) + BTerm(r, e.j, y)
  {
    assert ([e] + r)[0] == e && ([e] + r)[1..] == r;
  }

  /** An A entry first: it pairs with the B values of its column's row. */
  lemma ProductStepA(e: Entry, r: seq<Entry>, nRowsA: int, nColsB: int, x: int, y: int)
    requires IsA(e) && 0 <= x < nRowsA && 0 <= y < nColsB
    requires forall b | 0 <= b < |r| :: IsA(r[b]) ==> r[b].i != e.i || r[b].j != e.j
    requires PairSum(CellTags(r, nRowsA, nColsB, x, y)) == RowTimes(r, r, x, y)
    ensures PairSum(CellTags([e] + r, nRowsA, nColsB, x, y)) == RowTimes([e] + r, [e] + r, x, y)
  {
    EntriesCons(e, r, nRowsA, nColsB, x, y);
    RowTimesConsA(r, e, r, x, y);
    var t := CellTags(r, nRowsA, nColsB, x, y);
    if e.i == x {
      PairSumCons((e.j, e.value), t);
      IndexSumCell(r, nRowsA, nColsB, x, y, e.j);
      AAbsent(r, x, e.j);
    } else {
      assert CellTags([e] + r, nRowsA, nColsB, x, y) == t;
    }
  }

  /** A B entry first: it pairs with the A values of the cell's row. */
  lemma ProductStepB(e: Entry, r: seq<Entry>, nRowsA: int, nColsB: int, x: int, y: int)
    requires !IsA(e) && 0 <= x < nRowsA && 0 <= y < nColsB
    requires forall b | 0 <= b < |r| :: !IsA(r[b]) ==> r[b].i != e.i || r[b].j != e.j
    requires PairSum(CellTags(r, nRowsA, nColsB, x, y)) == RowTimes(r, r, x, y)
    ensures PairSum(CellTags([e] + r, nRowsA, nColsB, x, y)) == RowTimes([e] + r, [e] + r, x, y)
  {
    EntriesCons(e, r, nRowsA, nColsB, x, y);
    RowTimesConsB(r, e, r, x, y);
    var t := CellTags(r, nRowsA, nColsB, x, y);
    if e.j == y {
      PairSumCons((e.i, e.value), t);
      IndexSumCell(r, nRowsA, nColsB, x, y, e.i);
      BAbsent(r, e.i, y);
    } else {
      assert CellTags([e] + r, nRowsA, nColsB, x, y) == t;
    }
  }

  /** Inside the product, the pairwise sum of a cell's values is the
      reference product. */
  lemma {:induction false} PairSumIsProduct(es: seq<Entry>, nRowsA: int, nColsB: int, x: int, y: int)
    requires UniquePositions(es) && 0 <= x < nRowsA && 0 <= y < nColsB
    ensures PairSum(CellTags(es, nRowsA, nColsB, x, y)) == RowTimes(es, es, x, y)
  {
    if |es| > 0 {
      var e, r := es[0], es[1..];
      UniqueSplit(es);
      PairSumIsProduct(r, nRowsA, nColsB, x, y);
      assert es == [e] + r;
      if IsA(e) {
        ProductStepA(e, r, nRowsA, nColsB, x, y);
      } else {
        ProductStepB(e, r, nRowsA, nColsB, x, y);
      }
    }
  }

  /** A cell outside the product receives nothing. */
  lemma {:induction false} CellTagsOutside(es: seq<Entry>, nRowsA: int, nColsB: int, x: int, y: int)
    requires InRange(es, nRowsA, nColsB) && !(0 <= x < nRowsA && 0 <= y < nColsB)
    ensures CellTags(es, nRowsA, nColsB, x, y) == []
  {
    if |es| > 0 {
      assert InRange(es[1..], nRowsA, nColsB) by {
        assert forall a | 0 <= a < |es[1..]| :: es[1..][a] == es[a + 1];
      }
      CellTagsOutside(es[1..], nRowsA, nColsB, x, y);
    }
  }

  lemma {:induction false} RowTimesZero(rs: seq<Entry>, bs: seq<Entry>, x: int, y: int)
    requires forall a | 0 <= a < |rs| :: IsA(rs[a]) && rs[a].i == x ==> BTerm(bs, rs[a].j, y) == 0
    ensures RowTimes(rs, bs, x, y) == 0
  {
    if |rs| > 0 {
      RowTimesZero(rs[1..], bs, x, y);
    }
  }

  /** The reference product is zero outside `range(nRows_a) × range(nCols_b)`. */
  lemma ProductOutside(es: seq<Entry>, nRowsA: int, nColsB: int, x: int, y: int)
    requires InRange(es, nRowsA, nColsB) && !(0 <= x < nRowsA && 0 <= y < nColsB)
    ensures ProductAt(es, x, y) == 0
  {
    if 0 <= x < nRowsA {
      forall k
        ensures BTerm(es, k, y) == 0
      {
        BAbsent(es, k, y);
      }
    }
    RowTimesZero(es, es, x, y);
  }

  /** The reducer's sum for any cell is the reference product at it. */
  lemma CellSum(es: seq<Entry>, nRowsA: int, nColsB: int, x: int, y: int)
    requires InRange(es, nRowsA, nColsB) && UniquePositions(es)
    ensures SumProduct(CellTags(es, nRowsA, nColsB, x, y)) == ProductAt(es, x, y)
  {
    var tags := CellTags(es, nRowsA, nColsB, x, y);
    if 0 <= x < nRowsA && 0 <= y < nColsB {
      assert AtMostTwice(tags) by {
        forall k
          ensures |Filter(tags, KeyIs(Fst(), k))| <= 2
        {
          IndexCountCell(es, nRowsA, nColsB, x, y, k);
          UniqueCounts(es, x, k, y);
        }
      }
      SumProductIsPairSum(tags);
      PairSumIsProduct(es, nRowsA, nColsB, x, y);
    } else {
      CellTagsOutside(es, nRowsA, nColsB, x, y);
      ProductOutside(es, nRowsA, nColsB, x, y);
      assert Products(Collect(tags, Fst())) == [];
    }
  }

  // The whole computation.

  /** What the reducer yields for cell `c` when its sum is the reference
      product: the cell and its value, unless that is zero. */
  function CellOut(es: seq<Entry>, c: Cell): seq<(Cell, int)>
  {
    var v := ProductAt(es, c.0, c.1);
    if v != 0 then [(c, v)] else []
  }

  /** `map_reduce(entries, matrix_multiply_mapper(nRows_a, nCols_b),
      matrix_multiply_reducer)` yields, for every cell some entry is sent
      to and in first-seen order, the cell with its value in the product
      A·B, leaving out the cells whose value is zero. */
  lemma MatrixMultiplyComputes(es: seq<Entry>, nRowsA: int, nColsB: int)
    requires InRange(es, nRowsA, nColsB) && UniquePositions(es)
    ensures var ks := KeyOrder(es, Mapper(nRowsA, nColsB));
            MapReduce.MapReduce(es, Mapper(nRowsA, nColsB), Reducer) ==
              Flatten(seq(|ks|, i requires 0 <= i < |ks| => CellOut(es, ks[i])))
  {
    var m := Mapper(nRowsA, nColsB);
    var ks := KeyOrder(es, m);
    MapReduceSpec(es, m, Reducer);
    var calls := ReducerCalls(es, m, Reducer);
    var outs := seq(|ks|, i requires 0 <= i < |ks| => CellOut(es, ks[i]));
    forall i | 0 <= i < |ks|
      ensures calls[i] == outs[i]
    {
      var c := ks[i];
      ValuesForCell(es, nRowsA, nColsB, c.0, c.1);
      CellSum(es, nRowsA, nColsB, c.0, c.1);
    }
    assert calls == outs;
  }

  lemma {:induction false} BTermWitness(bs: seq<Entry>, k: int, y: int) returns (b: nat)
    requires BTerm(bs, k, y) != 0
    ensures b < |bs| && !IsA(bs[b]) && bs[b].i == k && bs[b].j == y
  {
    if !IsA(bs[0]) && bs[0].i == k && bs[0].j == y {
      b := 0;
    } else {
      b := BTermWitness(bs[1..], k, y);
      b := b + 1;
    }
  }

  lemma {:induction false} RowTimesWitness(rs: seq<Entry>, bs: seq<Entry>, x: int, y: int) returns (a: nat)
    requires RowTimes(rs, bs, x, y) != 0
    ensures a < |rs| && IsA(rs[a]) && rs[a].i == x && BTerm(bs, rs[a].j, y) != 0
  {
    if IsA(rs[0]) && rs[0].i == x && BTerm(bs, rs[0].j, y) != 0 {
      a := 0;
    } else {
      a := RowTimesWitness(rs[1..], bs, x, y);
      a := a + 1;
    }
  }

  /** The result holds exactly the non-zero cells of A·B, each with its
      value. */
  lemma MatrixMultiplyMembers(es: seq<Entry>, nRowsA: int, nColsB: int, c: Cell, v: int)
    requires InRange(es, nRowsA, nColsB) && UniquePositions(es)
    ensures (c, v) in MapReduce.MapReduce(es, Mapper(nRowsA, nColsB), Reducer) <==>
            ProductAt(es, c.0, c.1) != 0 && v == ProductAt(es, c.0, c.1)
  {
    var m := Mapper(nRowsA, nColsB);
    var ks := KeyOrder(es, m);
    var outs := seq(|ks|, i requires 0 <= i < |ks| => CellOut(es, ks[i]));
    MatrixMultiplyComputes(es, nRowsA, nColsB);
    FlattenMembership(outs, (c, v));
    var p := ProductAt(es, c.0, c.1);
    if p != 0 && v == p {
      var a := RowTimesWitness(es, es, c.0, c.1);
      var b := BTermWitness(es, es[a].j, c.1);
      assert 0 <= c.1 < nColsB;
      var e := es[a];
      assert m(e)[c.1] == (c, (e.j, e.value));
      EmittedKey(es, m, a, (c, (e.j, e.value)));
      var i :| 0 <= i < |ks| && ks[i] == c;
      assert (c, v) in outs[i];
    }
  }

  /** The worked example at the end of pytemp/mapred.py:
      A = [[3, 2, 0], [0, 0, 0]] and B = [[4, -1, 0], [10, 0, 0], [0, 0, 0]]
      as their non-zero entries. */
  function DemoEntries(): seq<Entry>
  {
    [Entry("A", 0, 0, 3), Entry("A", 0, 1, 2),
     Entry("B", 0, 0, 4), Entry("B", 0, 1, -1), Entry("B", 1, 0, 10)]
  }

  lemma DemoWellFormed()
    ensures InRange(DemoEntries(), 2, 3) && UniquePositions(DemoEntries())
  {
  }

  lemma DemoCells()
    ensures ProductAt(DemoEntries(), 0, 0) == 32
    ensures ProductAt(DemoEntries(), 0, 1) == -3
    ensures ProductAt(DemoEntries(), 1, 0) == 0
  {
    var es := DemoEntries();
    assert BTerm(es, 0, 0) == 4 && BTerm(es, 1, 0) == 10;
    assert BTerm(es, 0, 1) == -1 && BTerm(es, 1, 1) == 0;
  }

  /** A·B = [[32, -3, 0], [0, 0, 0]]: the example yields cell (0, 0) with
      32 and cell (0, 1) with -3, and nothing for row 1. */
  lemma DemoProduct(v: int)
    ensures ((0, 0), 32) in MapReduce.MapReduce(DemoEntries(), Mapper(2, 3), Reducer)
    ensures ((0, 1), -3) in MapReduce.MapReduce(DemoEntries(), Mapper(2, 3), Reducer)
    ensures ((1, 0), v) !in MapReduce.MapReduce(DemoEntries(), Mapper(2, 3), Reducer)
  {
    DemoWellFormed();
    DemoCells();
    MatrixMultiplyMembers(DemoEntries(), 2, 3, (0, 0), 32);
    MatrixMultiplyMembers(DemoEntries(), 2, 3, (0, 1), -3);
    MatrixMultiplyMembers(DemoEntries(), 2, 3, (1, 0), v);
  }
}
