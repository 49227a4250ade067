/** The decision trees of pkg/tree/trees.py: `Leaf`/`Split` trees,
    `classify`, `partition_by` and the ID3 `build_tree`. Candidates are of
    any type `C`; `getattr(cand, attr)` is the parameter `get`, and every
    attribute value (a split value or a target label) is of type `V`. The
    impurity `split_entropy` is floating-point entropy and is taken as an
    abstract cost `impurity(cands, target_attr, attr)`. */
module Trees {
  import opened Results
  import opened Seqs
  import opened Collectors

  /** `Leaf(value)` and `Split(attr, subtree, value)`; a split's `value` is
      the default answer for attribute values it has no branch for. */
  datatype Tree<V> = Leaf(value: V) | Split(attr: string, subtree: map<V, Tree<V>>, value: V)

  /** `v` is the value of some node of the tree. */
  predicate IsLabel<V>(tree: Tree<V>, v: V)
  {
    v == tree.value ||
    (tree.Split? && exists b | b in tree.subtree :: IsLabel(tree.subtree[b], v))
  }

  /** `classify(tree, cand)`: a leaf answers its value; a split follows the
      branch of the candidate's value of its attribute, or answers its
      default when there is no such branch. The answer is always some
      node's value. */
  function Classify<C, V>(tree: Tree<V>, c: C, get: (C, string) -> V): (r: V)
    ensures IsLabel(tree, r)
  {
    match tree
    case Leaf(v) => v
    case Split(a, sub, v) =>
      var b := get(c, a);
      if b !in sub then v
      else
        var r := Classify(sub[b], c, get);
        assert IsLabel(sub[b], r);
        r
  }

  /** A leaf answers its value whatever the candidate. */
  lemma ClassifyLeaf<C, V>(v: V, c: C, get: (C, string) -> V)
    ensures Classify(Leaf(v), c, get) == v
  {
  }

  /** A split answers its default exactly for the attribute values it has
      no branch for, and otherwise what the branch answers. */
  lemma ClassifySplit<C, V>(a: string, sub: map<V, Tree<V>>, v: V, c: C, get: (C, string) -> V)
    ensures get(c, a) !in sub ==> Classify(Split(a, sub, v), c, get) == v
    ensures get(c, a) in sub ==> Classify(Split(a, sub, v), c, get) == Classify(sub[get(c, a)], c, get)
  {
  }

  /** `lambda cand: getattr(cand, attr)`. */
  function AttrOf<C, V>(get: (C, string) -> V, a: string): C -> V
  {
    c => get(c, a)
  }

  /** `partition_by(cands, attr)`: the candidates grouped by their value of
      `attr`, values in first-seen order. */
  function PartitionBy<C, V(==)>(cands: seq<C>, a: string, get: (C, string) -> V): seq<Group<V, C>>
  {
    Collect(cands, AttrOf(get, a))
  }

  /** The partition is disjoint and exhaustive: each value appears once,
      every bucket is non-empty and holds exactly the candidates with its
      value in input order, each candidate is in its value's bucket, and
      the bucket sizes add up to the number of candidates. */
  lemma PartitionBySpec<C, V>(cands: seq<C>, a: string, get: (C, string) -> V)
    ensures var part := PartitionBy(cands, a, get);
            && Distinct(Keys(part))
            && (forall i | 0 <= i < |part| :: |part[i].items| > 0)
            && (forall b :: Lookup(part, b) == Filter(cands, KeyIs(AttrOf(get, a), b)))
            && (forall i | 0 <= i < |cands| :: cands[i] in Lookup(part, get(cands[i], a)))
            && TotalSize(part) == |cands|
  {
    var f := AttrOf(get, a);
    CollectSpec(cands, f);
    CollectNonEmpty(cands, f);
    CollectTotalSize(cands, f);
    forall i | 0 <= i < |cands|
      ensures cands[i] in Lookup(PartitionBy(cands, a, get), get(cands[i], a))
    {
      FilterMembership(cands, KeyIs(f, f(cands[i])), cands[i]);
    }
  }

  /** Each value that has a bucket has a non-empty one. */
  lemma PartitionNonEmpty<C, V>(cands: seq<C>, a: string, get: (C, string) -> V)
    ensures forall b | b in Keys(PartitionBy(cands, a, get)) :: |Lookup(PartitionBy(cands, a, get), b)| > 0
  {
    var f := AttrOf(get, a);
    var part := PartitionBy(cands, a, get);
    CollectSpec(cands, f);
    forall b | b in Keys(part)
      ensures |Lookup(part, b)| > 0
    {
      assert b in Image(cands, f);
      var j :| 0 <= j < |cands| && Image(cands, f)[j] == b;
      FilterMembership(cands, KeyIs(f, b), cands[j]);
    }
  }

  /** Index of the first element of least key: Python's `min(xs, key=...)`. */
  function FirstMin(xs: seq<string>, key: string -> real): (i: nat)
    requires |xs| > 0
    ensures i < |xs|
    ensures forall j | 0 <= j < |xs| :: key(xs[i]) <= key(xs[j])
    ensures forall j | 0 <= j < i :: key(xs[i]) < key(xs[j])
  {
    if |xs| == 1 then 0
    else
      var i := FirstMin(xs[..|xs| - 1], key);
      if key(xs[|xs| - 1]) < key(xs[i]) then |xs| - 1 else i
  }

  /** Index of the first element of `s` whose count in `labels` is
      greatest. */
  function FirstMax<T(==)>(s: seq<T>, labels: seq<T>): (i: nat)
    requires |s| > 0
    ensures i < |s|
    ensures forall j | 0 <= j < |s| :: Count(labels, s[j]) <= Count(labels, s[i])
    ensures forall j | 0 <= j < i :: Count(labels, s[j]) < Count(labels, s[i])
  {
    if |s| == 1 then 0
    else
      var i := FirstMax(s[..|s| - 1], labels);
      if Count(labels, s[|s| - 1]) > Count(labels, s[i]) then |s| - 1 else i
  }

  /** `Counter(labels).most_common(1)[0][0]`: a label of greatest count,
      and among those the one seen first (a `Counter` keeps its keys in
      first-seen order and reports the first of equal counts). */
  function MostCommon<T(==)>(labels: seq<T>): (r: T)
    requires |labels| > 0
    ensures r in labels
    ensures forall j | 0 <= j < |labels| :: Count(labels, labels[j]) <= Count(labels, r)
    ensures forall j | 0 <= j < |labels| && Count(labels, labels[j]) == Count(labels, r) ::
              r in labels[..j + 1]
  {
    var i := FirstMax(labels, labels);
    assert forall j | 0 <= j < |labels| && Count(labels, labels[j]) == Count(labels, labels[i]) ::
             labels[..j + 1][i] == labels[i];
    labels[i]
  }

  /** `partial(split_entropy, cands, target_attr)`. */
  function CostOf<C>(cands: seq<C>, target: string, impurity: (seq<C>, string, string) -> real): string -> real
  {
    a => impurity(cands, target, a)
  }

  /** `min(split_attrs, key=impurity)` is an attribute of least impurity,
      and no attribute of the same impurity comes before it. */
  lemma BestAttr<C>(cands: seq<C>, attrs: seq<string>, target: string, impurity: (seq<C>, string, string) -> real)
    requires |attrs| > 0
    ensures var best := attrs[FirstMin(attrs, CostOf(cands, target, impurity))];
            && best in attrs
            && (forall j | 0 <= j < |attrs| :: impurity(cands, target, best) <= impurity(cands, target, attrs[j]))
            && (forall j | 0 <= j < |attrs| && impurity(cands, target, attrs[j]) == impurity(cands, target, best) ::
                  best in attrs[..j + 1])
  {
    var i := FirstMin(attrs, CostOf(cands, target, impurity));
    forall j | 0 <= j < |attrs| && impurity(cands, target, attrs[j]) == impurity(cands, target, attrs[i])
      ensures attrs[i] in attrs[..j + 1]
    {
      assert attrs[..j + 1][i] == attrs[i];
    }
  }

  /** The values with a bucket are exactly the candidates' values. */
  lemma PartitionKeys<C, V>(cands: seq<C>, a: string, get: (C, string) -> V)
    ensures forall i | 0 <= i < |cands| :: get(cands[i], a) in Keys(PartitionBy(cands, a, get))
    ensures forall b | b in Keys(PartitionBy(cands, a, get)) :: b in Image(cands, AttrOf(get, a))
  {
    CollectSpec(cands, AttrOf(get, a));
    forall i | 0 <= i < |cands|
      ensures get(cands[i], a) in Keys(PartitionBy(cands, a, get))
    {
      assert Image(cands, AttrOf(get, a))[i] == get(cands[i], a);
    }
  }

  /** Every attribute but `a`. */
  function Other(a: string): string -> bool
  {
    b => b != a
  }

  lemma OtherShorter(attrs: seq<string>, a: string)
    requires a in attrs
    ensures |Filter(attrs, Other(a))| < |attrs|
  {
    FilterComplementSize(attrs, Not(Other(a)));
    FilterMembership(attrs, Not(Other(a)), a);
    assert Filter(attrs, Not(Not(Other(a)))) == Filter(attrs, Other(a)) by {
      FilterSame(attrs, Not(Not(Other(a))), Other(a));
    }
  }

  /** Filtering with two predicates that agree gives the same result. */
  lemma {:induction false} FilterSame<T>(s: seq<T>, p: T -> bool, q: T -> bool)
    requires forall x :: p(x) == q(x)
    ensures Filter(s, p) == Filter(s, q)
  {
    if |s| > 0 {
      FilterSame(s[1..], p, q);
    }
  }

  /** The labels of the candidates, in order. */
  function Labels<C, V>(cands: seq<C>, target: string, get: (C, string) -> V): seq<V>
  {
    Image(cands, AttrOf(get, target))
  }

  /** Every node of the tree tests an attribute of `attrs`, and each
      subtree only the attributes left after removing its parent's. */
  predicate BuiltOver<V>(tree: Tree<V>, attrs: seq<string>)
    decreases |attrs|
  {
    tree.Split? ==>
      && tree.attr in attrs
      && (OtherShorter(attrs, tree.attr);
          forall b | b in tree.subtree :: BuiltOver(tree.subtree[b], Filter(attrs, Other(tree.attr))))
  }

  /** The tree has at most `n` levels of splits. */
  predicate DepthAtMost<V>(tree: Tree<V>, n: nat)
  {
    tree.Split? ==> n > 0 && forall b | b in tree.subtree :: DepthAtMost(tree.subtree[b], n - 1)
  }

  /** The ID3 recursion on a non-empty list of candidates: a leaf with the
      most common label when the labels agree or no attribute is left;
      otherwise a split on the first attribute of least impurity, with one
      subtree per value of it, each grown from that value's candidates
      without the attribute, and the most common label as default. */
  function Grow<C, V(==)>(cands: seq<C>, attrs: seq<string>, target: string,
                          get: (C, string) -> V, impurity: (seq<C>, string, string) -> real): (r: Tree<V>)
    requires |cands| > 0
    ensures r.value == MostCommon(Labels(cands, target, get))
    ensures r.Leaf? <==> |Dedup(Labels(cands, target, get))| == 1 || |attrs| == 0
    ensures r.Split? ==> && r.attr in attrs
                         && (forall j | 0 <= j < |attrs| ::
                               impurity(cands, target, r.attr) <= impurity(cands, target, attrs[j]))
                         && (forall j | 0 <= j < |attrs| && impurity(cands, target, attrs[j]) == impurity(cands, target, r.attr) ::
                               r.attr in attrs[..j + 1])
                         && (forall i | 0 <= i < |cands| :: get(cands[i], r.attr) in r.subtree)
                         && (forall b | b in r.subtree :: b in Image(cands, AttrOf(get, r.attr)))
    ensures BuiltOver(r, attrs)
    decreases |attrs|
  {
    var labels := Labels(cands, target, get);
    var mc := MostCommon(labels);
    if |Dedup(labels)| == 1 || |attrs| == 0 then Leaf(mc)
    else
      var best := attrs[FirstMin(attrs, CostOf(cands, target, impurity))];
      BestAttr(cands, attrs, target, impurity);
      var part := PartitionBy(cands, best, get);
      var rest := Filter(attrs, Other(best));
      OtherShorter(attrs, best);
      PartitionNonEmpty(cands, best, get);
      PartitionKeys(cands, best, get);
      var sub := map b | b in Keys(part) :: Grow(Lookup(part, b), rest, target, get, impurity);
      Split(best, sub, mc)
  }

  /** `build_tree(cands, split_attrs, target_attr)`: IndexError for no
      candidates (`most_common(1)` is empty), otherwise the ID3 tree. */
  function BuildTree<C, V(==)>(cands: seq<C>, attrs: seq<string>, target: string,
                               get: (C, string) -> V, impurity: (seq<C>, string, string) -> real): (r: Result<Tree<V>, Error>)
    ensures |cands| == 0 <==> r == Failure(IndexError)
    ensures r.Success? ==> && r.value.value in Labels(cands, target, get)
                           && BuiltOver(r.value, attrs)
                           && DepthAtMost(r.value, |attrs|)
  {
    if |cands| == 0 then Failure(IndexError)
    else
      var tree := Grow(cands, attrs, target, get, impurity);
      BuiltOverDepth(tree, attrs);
      Success(tree)
  }

  /** A tree built over `attrs` is at most `|attrs|` splits deep, since
      each level removes its attribute. */
  lemma {:induction false} BuiltOverDepth<V>(tree: Tree<V>, attrs: seq<string>)
    requires BuiltOver(tree, attrs)
    ensures DepthAtMost(tree, |attrs|)
    decreases |attrs|
  {
    if tree.Split? {
      var rest := Filter(attrs, Other(tree.attr));
      OtherShorter(attrs, tree.attr);
      forall b | b in tree.subtree
        ensures DepthAtMost(tree.subtree[b], |attrs| - 1)
      {
        BuiltOverDepth(tree.subtree[b], rest);
        DepthWeaken(tree.subtree[b], |rest|, |attrs| - 1);
      }
    }
  }

  lemma {:induction false} DepthWeaken<V>(tree: Tree<V>, n: nat, m: nat)
    requires DepthAtMost(tree, n) && n <= m
    ensures DepthAtMost(tree, m)
    decreases n
  {
    if tree.Split? {
      forall b | b in tree.subtree
        ensures DepthAtMost(tree.subtree[b], m - 1)
      {
        DepthWeaken(tree.subtree[b], n - 1, m - 1);
      }
    }
  }

  /** The candidates of a bucket are among the candidates. */
  lemma BucketLabels<C, V>(cands: seq<C>, a: string, target: string, get: (C, string) -> V, b: V, v: V)
    requires v in Labels(Lookup(PartitionBy(cands, a, get), b), target, get)
    ensures v in Labels(cands, target, get)
  {
    var f := AttrOf(get, a);
    CollectSpec(cands, f);
    var items := Lookup(PartitionBy(cands, a, get), b);
    var k :| 0 <= k < |items| && Labels(items, target, get)[k] == v;
    assert items[k] in cands;
    var j :| 0 <= j < |cands| && cands[j] == items[k];
    assert Labels(cands, target, get)[j] == v;
  }

  /** The branch of a grown split for value `b` is the tree grown from
      `b`'s non-empty bucket without the split attribute. */
  lemma GrowSubtree<C, V>(cands: seq<C>, attrs: seq<string>, target: string,
                          get: (C, string) -> V, impurity: (seq<C>, string, string) -> real, b: V)
    requires |cands| > 0
    requires Grow(cands, attrs, target, get, impurity).Split?
    requires b in Grow(cands, attrs, target, get, impurity).subtree
    ensures var r := Grow(cands, attrs, target, get, impurity);
            var items := Lookup(PartitionBy(cands, r.attr, get), b);
            && |Filter(attrs, Other(r.attr))| < |attrs|
            && |items| > 0
            && r.subtree[b] == Grow(items, Filter(attrs, Other(r.attr)), target, get, impurity)
  {
    var r := Grow(cands, attrs, target, get, impurity);
    BestAttr(cands, attrs, target, impurity);
    OtherShorter(attrs, r.attr);
    PartitionNonEmpty(cands, r.attr, get);
  }

  /** Every value in a grown tree, leaf or split default, is a label of
      some candidate; so `classify` only ever answers a training label. */
  lemma {:induction false} GrowLabels<C, V>(cands: seq<C>, attrs: seq<string>, target: string,
                                            get: (C, string) -> V, impurity: (seq<C>, string, string) -> real, v: V)
    requires |cands| > 0
    requires IsLabel(Grow(cands, attrs, target, get, impurity), v)
    ensures v in Labels(cands, target, get)
    decreases |attrs|
  {
    var r := Grow(cands, attrs, target, get, impurity);
    if v != r.value {
      var b :| b in r.subtree && IsLabel(r.subtree[b], v);
      GrowSubtree(cands, attrs, target, get, impurity, b);
      GrowLabels(Lookup(PartitionBy(cands, r.attr, get), b), Filter(attrs, Other(r.attr)), target, get, impurity, v);
      BucketLabels(cands, r.attr, target, get, b, v);
    }
  }

  /** Whatever it is asked about, a tree grown from `cands` answers a label
      that occurs among them. */
  lemma ClassifyAnswersTrainingLabel<C, V>(cands: seq<C>, attrs: seq<string>, target: string,
                                           get: (C, string) -> V, impurity: (seq<C>, string, string) -> real, c: C)
    requires |cands| > 0
    ensures Classify(Grow(cands, attrs, target, get, impurity), c, get) in Labels(cands, target, get)
  {
    var r := Classify(Grow(cands, attrs, target, get, impurity), c, get);
    GrowLabels(cands, attrs, target, get, impurity, r);
  }

  /** Two candidates agree on every attribute of `attrs`. */
  predicate AgreeOn<C, V(==)>(get: (C, string) -> V, attrs: seq<string>, c1: C, c2: C)
  {
    forall j | 0 <= j < |attrs| :: get(c1, attrs[j]) == get(c2, attrs[j])
  }

  /** The label is a function of the attributes: candidates that agree on
      all of them have the same label. */
  predicate Consistent<C, V(==)>(cands: seq<C>, attrs: seq<string>, target: string, get: (C, string) -> V)
  {
    forall i, j | 0 <= i < |cands| && 0 <= j < |cands| && AgreeOn(get, attrs, cands[i], cands[j]) ::
      get(cands[i], target) == get(cands[j], target)
  }

  /** When all candidates share one label, the most common label is it. */
  lemma OneLabel<C, V>(cands: seq<C>, target: string, get: (C, string) -> V, c: C)
    requires |cands| > 0 && c in cands
    requires forall i | 0 <= i < |cands| :: get(cands[i], target) == get(c, target)
    ensures MostCommon(Labels(cands, target, get)) == get(c, target)
  {
    var labels := Labels(cands, target, get);
    var k :| 0 <= k < |labels| && labels[k] == MostCommon(labels);
  }

  /** Labels that are not all equal leave at least two distinct ones. */
  lemma TwoLabels<C, V>(cands: seq<C>, target: string, get: (C, string) -> V, i: nat, j: nat)
    requires i < |cands| && j < |cands| && get(cands[i], target) != get(cands[j], target)
    ensures |Dedup(Labels(cands, target, get))| != 1
  {
    var labels := Labels(cands, target, get);
    assert labels[i] in Dedup(labels) && labels[j] in Dedup(labels);
  }

  /** A bucket of a consistent set is consistent without the split
      attribute: its candidates already agree on that one. */
  lemma BucketConsistent<C, V>(cands: seq<C>, attrs: seq<string>, target: string, get: (C, string) -> V, best: string, b: V)
    requires Consistent(cands, attrs, target, get)
    ensures Consistent(Lookup(PartitionBy(cands, best, get), b), Filter(attrs, Other(best)), target, get)
  {
    var f := AttrOf(get, best);
    CollectSpec(cands, f);
    var items := Lookup(PartitionBy(cands, best, get), b);
    var rest := Filter(attrs, Other(best));
    forall i, j | 0 <= i < |items| && 0 <= j < |items| && AgreeOn(get, rest, items[i], items[j])
      ensures get(items[i], target) == get(items[j], target)
    {
      assert items[i] in cands && items[j] in cands;
      var i' :| 0 <= i' < |cands| && cands[i'] == items[i];
      var j' :| 0 <= j' < |cands| && cands[j'] == items[j];
      forall k | 0 <= k < |attrs|
        ensures get(items[i], attrs[k]) == get(items[j], attrs[k])
      {
        if attrs[k] != best {
          FilterMembership(attrs, Other(best), attrs[k]);
          var m :| 0 <= m < |rest| && rest[m] == attrs[k];
        }
      }
      assert AgreeOn(get, attrs, cands[i'], cands[j']);
    }
  }

  /** ID3 fits consistent training data: when the label is a function of
      the split attributes, the grown tree classifies every candidate it
      was grown from with that candidate's own label. */
  lemma {:induction false} GrowFitsConsistent<C, V>(cands: seq<C>, attrs: seq<string>, target: string,
                                                    get: (C, string) -> V, impurity: (seq<C>, string, string) -> real, c: C)
    requires |cands| > 0 && c in cands
    requires Consistent(cands, attrs, target, get)
    ensures Classify(Grow(cands, attrs, target, get, impurity), c, get) == get(c, target)
    decreases |attrs|
  {
    var r := Grow(cands, attrs, target, get, impurity);
    if r.Leaf? {
      LeafFitsConsistent(cands, attrs, target, get, impurity, c);
    } else {
      var b := get(c, r.attr);
      PartitionBySpec(cands, r.attr, get);
      PartitionKeys(cands, r.attr, get);
      var ci :| 0 <= ci < |cands| && cands[ci] == c;
      assert b in r.subtree;
      GrowSubtree(cands, attrs, target, get, impurity, b);
      var items := Lookup(PartitionBy(cands, r.attr, get), b);
      assert c in items;
      BucketConsistent(cands, attrs, target, get, r.attr, b);
      GrowFitsConsistent(items, Filter(attrs, Other(r.attr)), target, get, impurity, c);
    }
  }

  /** A grown leaf of consistent candidates answers every candidate's
      label: they all share it. */
  lemma LeafFitsConsistent<C, V>(cands: seq<C>, attrs: seq<string>, target: string,
                                 get: (C, string) -> V, impurity: (seq<C>, string, string) -> real, c: C)
    requires |cands| > 0 && c in cands
    requires Consistent(cands, attrs, target, get)
    requires Grow(cands, attrs, target, get, impurity).Leaf?
    ensures Grow(cands, attrs, target, get, impurity).value == get(c, target)
  {
    var ci :| 0 <= ci < |cands| && cands[ci] == c;
    forall i | 0 <= i < |cands|
      ensures get(cands[i], target) == get(c, target)
    {
      if get(cands[i], target) != get(c, target) {
        TwoLabels(cands, target, get, i, ci);
        assert |attrs| == 0;
        assert AgreeOn(get, attrs, cands[i], c);
      }
    }
    OneLabel(cands, target, get, c);
  }
}
