/** The insertion-ordered collector the Python code builds with
    `defaultdict(list)`: every item is appended to the list of its key, and
    the keys come out in the order they were first seen. `groupby`,
    `partition_by`, `map_reduce`, `word_count` and the matrix-multiply
    reducer all use it. */
module Collectors {
  import opened Seqs

  /** One entry of the dict: a key and the items appended under it. */
  datatype Group<K, X> = Group(key: K, items: seq<X>)

  function Keys<K, X>(gs: seq<Group<K, X>>): (ks: seq<K>)
    ensures |ks| == |gs|
  {
    seq(|gs|, i requires 0 <= i < |gs| => gs[i].key)
  }

  /** The key of every item, in order. */
  function Image<X, K>(xs: seq<X>, f: X -> K): (ks: seq<K>)
    ensures |ks| == |xs|
  {
    seq(|xs|, i requires 0 <= i < |xs| => f(xs[i]))
  }

  /** The items whose key is `k`. */
  function KeyIs<X, K(==)>(f: X -> K, k: K): X -> bool
  {
    x => f(x) == k
  }

  /** Position of the group with key `k`, or `|gs|` when there is none. */
  function Find<K(==), X>(gs: seq<Group<K, X>>, k: K): (i: nat)
    ensures i <= |gs|
    ensures i < |gs| ==> gs[i].key == k
    ensures forall j | 0 <= j < i :: gs[j].key != k
  {
    if |gs| == 0 then 0
    else if gs[0].key == k then 0
    else 1 + Find(gs[1..], k)
  }

  /** `collector[k].append(x)`. */
  function Add<K(==), X>(gs: seq<Group<K, X>>, k: K, x: X): seq<Group<K, X>>
  {
    var i := Find(gs, k);
    if i < |gs| then gs[i := Group(gs[i].key, gs[i].items + [x])]
    else gs + [Group(k, [x])]
  }

  /** The collector after appending every item of `xs` under its key. */
  function Collect<X, K(==)>(xs: seq<X>, f: X -> K): seq<Group<K, X>>
  {
    if |xs| == 0 then []
    else Add(Collect(xs[..|xs| - 1], f), f(xs[|xs| - 1]), xs[|xs| - 1])
  }

  /** `collector[k]` for a key present, and the empty list otherwise. */
  function Lookup<K(==), X>(gs: seq<Group<K, X>>, k: K): seq<X>
  {
    var i := Find(gs, k);
    if i < |gs| then gs[i].items else []
  }

  /** Number of items held over all groups. */
  function TotalSize<K, X>(gs: seq<Group<K, X>>): nat
  {
    if |gs| == 0 then 0 else |gs[0].items| + TotalSize(gs[1..])
  }

  /** The collector holds each distinct key once, in first-seen order, and
      the group of each key is exactly the items with that key, in input
      order. */
  ghost predicate Collected<X, K>(xs: seq<X>, f: X -> K, gs: seq<Group<K, X>>)
  {
    && Keys(gs) == Dedup(Image(xs, f))
    && forall i | 0 <= i < |gs| :: gs[i].items == Filter(xs, KeyIs(f, gs[i].key))
  }

  lemma KeysSnoc<K, X>(gs: seq<Group<K, X>>, g: Group<K, X>)
    ensures Keys(gs + [g]) == Keys(gs) + [g.key]
  {
  }

  lemma ImageSnoc<X, K>(xs: seq<X>, x: X, f: X -> K)
    ensures Image(xs + [x], f) == Image(xs, f) + [f(x)]
  {
  }

  lemma {:induction false} FilterKeyAbsent<X, K>(xs: seq<X>, f: X -> K, k: K)
    requires k !in Image(xs, f)
    ensures Filter(xs, KeyIs(f, k)) == []
  {
    forall i | 0 <= i < |xs|
      ensures !KeyIs(f, k)(xs[i])
    {
      assert Image(xs, f)[i] == f(xs[i]);
    }
    FilterNone(xs, KeyIs(f, k));
  }

  /** Appending an item whose key already has a group keeps the collector
      faithful. */
  lemma AddExisting<X, K>(xs: seq<X>, x: X, f: X -> K, gs: seq<Group<K, X>>)
    requires Collected(xs, f, gs)
    requires Find(gs, f(x)) < |gs|
    ensures Collected(xs + [x], f, Add(gs, f(x), x))
  {
    var i := Find(gs, f(x));
    var gs' := Add(gs, f(x), x);
    ImageSnoc(xs, x, f);
    assert Keys(gs)[i] == f(x);
    assert f(x) in Image(xs, f);
    assert Image(xs + [x], f)[..|xs|] == Image(xs, f);
    assert Keys(gs') == Keys(gs);
    forall j | 0 <= j < |gs'|
      ensures gs'[j].items == Filter(xs + [x], KeyIs(f, gs'[j].key))
    {
      FilterSnoc(xs, x, KeyIs(f, gs[j].key));
      if j != i {
        assert Keys(gs)[j] != Keys(gs)[i];
      }
    }
  }

  /** A key without a group occurs in no item collected so far. */
  lemma NewKeyUnseen<X, K>(xs: seq<X>, f: X -> K, gs: seq<Group<K, X>>, k: K)
    requires Collected(xs, f, gs)
    requires Find(gs, k) == |gs|
    ensures k !in Image(xs, f)
  {
    forall j | 0 <= j < |xs|
      ensures Image(xs, f)[j] != k
    {
      assert Image(xs, f)[j] in Keys(gs);
    }
  }

  /** Appending an item with a new key opens a group at the end. */
  lemma AddNew<X, K>(xs: seq<X>, x: X, f: X -> K, gs: seq<Group<K, X>>)
    requires Collected(xs, f, gs)
    requires Find(gs, f(x)) == |gs|
    ensures Collected(xs + [x], f, Add(gs, f(x), x))
  {
    var gs' := Add(gs, f(x), x);
    NewKeyUnseen(xs, f, gs, f(x));
    AddNewKeys(xs, x, f, gs);
    forall j | 0 <= j < |gs'|
      ensures gs'[j].items == Filter(xs + [x], KeyIs(f, gs'[j].key))
    {
      FilterSnoc(xs, x, KeyIs(f, gs'[j].key));
      if j == |gs| {
        FilterKeyAbsent(xs, f, f(x));
      }
    }
  }

  lemma AddNewKeys<X, K>(xs: seq<X>, x: X, f: X -> K, gs: seq<Group<K, X>>)
    requires Collected(xs, f, gs)
    requires Find(gs, f(x)) == |gs| && f(x) !in Image(xs, f)
    ensures Keys(Add(gs, f(x), x)) == Dedup(Image(xs + [x], f))
  {
    ImageSnoc(xs, x, f);
    DedupSnocNew(Image(xs, f), f(x));
    KeysSnoc(gs, Group(f(x), [x]));
  }

  lemma {:induction false} CollectIsCollected<X, K>(xs: seq<X>, f: X -> K)
    ensures Collected(xs, f, Collect(xs, f))
  {
    if |xs| > 0 {
      var pre, x := xs[..|xs| - 1], xs[|xs| - 1];
      assert xs == pre + [x];
      CollectIsCollected(pre, f);
      var gs := Collect(pre, f);
      if Find(gs, f(x)) < |gs| {
        AddExisting(pre, x, f, gs);
      } else {
        AddNew(pre, x, f, gs);
      }
    }
  }

  /** Every key is present once; every item sits in the group of its key,
      which keeps input order; a key absent from the input has no group. */
  lemma CollectSpec<X, K>(xs: seq<X>, f: X -> K)
    ensures Keys(Collect(xs, f)) == Dedup(Image(xs, f))
    ensures Distinct(Keys(Collect(xs, f)))
    ensures forall i | 0 <= i < |Collect(xs, f)| ::
              Collect(xs, f)[i].items == Filter(xs, KeyIs(f, Collect(xs, f)[i].key))
    ensures forall k :: Lookup(Collect(xs, f), k) == Filter(xs, KeyIs(f, k))
  {
    CollectIsCollected(xs, f);
    var gs := Collect(xs, f);
    forall k
      ensures Lookup(gs, k) == Filter(xs, KeyIs(f, k))
    {
      var i := Find(gs, k);
      if i == |gs| {
        assert k !in Image(xs, f) by {
          forall j | 0 <= j < |xs|
            ensures Image(xs, f)[j] != k
          {
            assert Image(xs, f)[j] in Keys(gs);
          }
        }
        FilterKeyAbsent(xs, f, k);
      }
    }
  }

  /** Every group is non-empty. */
  lemma CollectNonEmpty<X, K>(xs: seq<X>, f: X -> K)
    ensures forall i | 0 <= i < |Collect(xs, f)| :: |Collect(xs, f)[i].items| > 0
  {
    CollectSpec(xs, f);
    var gs := Collect(xs, f);
    forall i | 0 <= i < |gs|
      ensures |gs[i].items| > 0
    {
      assert Keys(gs)[i] in Image(xs, f);
      var j :| 0 <= j < |xs| && Image(xs, f)[j] == gs[i].key;
      FilterMembership(xs, KeyIs(f, gs[i].key), xs[j]);
    }
  }

  lemma {:induction false} TotalSizeUpdate<K, X>(gs: seq<Group<K, X>>, i: nat, g: Group<K, X>)
    requires i < |gs|
    ensures TotalSize(gs[i := g]) == TotalSize(gs) - |gs[i].items| + |g.items|
  {
    if i == 0 {
      assert gs[i := g][1..] == gs[1..];
    } else {
      assert gs[i := g][1..] == gs[1..][i - 1 := g];
      TotalSizeUpdate(gs[1..], i - 1, g);
    }
  }

  lemma {:induction false} TotalSizeSnoc<K, X>(gs: seq<Group<K, X>>, g: Group<K, X>)
    ensures TotalSize(gs + [g]) == TotalSize(gs) + |g.items|
  {
    if |gs| > 0 {
      assert (gs + [g])[1..] == gs[1..] + [g];
      TotalSizeSnoc(gs[1..], g);
    }
  }

  /** The groups' sizes add up to the number of items: nothing is lost or
      counted twice. */
  lemma {:induction false} CollectTotalSize<X, K>(xs: seq<X>, f: X -> K)
    ensures TotalSize(Collect(xs, f)) == |xs|
  {
    if |xs| > 0 {
      var pre, x := xs[..|xs| - 1], xs[|xs| - 1];
      CollectTotalSize(pre, f);
      var gs := Collect(pre, f);
      var i := Find(gs, f(x));
      if i < |gs| {
        TotalSizeUpdate(gs, i, Group(gs[i].key, gs[i].items + [x]));
      } else {
        TotalSizeSnoc(gs, Group(f(x), [x]));
      }
    }
  }

  /** When every item has the same key, there is one group holding all
      the items, or none for no items. */
  lemma {:induction false} CollectConstant<X, K>(xs: seq<X>, f: X -> K, k: K)
    requires forall x :: f(x) == k
    ensures |xs| == 0 ==> Collect(xs, f) == []
    ensures |xs| > 0 ==> Collect(xs, f) == [Group(k, xs)]
  {
    if |xs| > 0 {
      var pre := xs[..|xs| - 1];
      var x := xs[|xs| - 1];
      CollectConstant(pre, f, k);
      assert f(x) == k;
      if |pre| > 0 {
        assert Find([Group(k, pre)], k) == 0;
        assert pre + [x] == xs;
      }
    }
  }
}
