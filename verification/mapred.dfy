/** The map-reduce harness of pytemp/mapred.py: `map_reduce` collects the
    values every input's mapper emits under their keys (keys in first-seen
    order, values in emission order) and concatenates the reducer's outputs
    for each key; word count, `values_reducer` and `count_distinct_reducer`
    are built on it. */
module MapReduce {
  import opened Seqs
  import opened Collectors
  import opened Tokens

  /** All pairs the mapper emits, input by input. */
  function Emitted<I, K, V>(inputs: seq<I>, mapper: I -> seq<(K, V)>): seq<(K, V)>
  {
    if |inputs| == 0 then [] else mapper(inputs[0]) + Emitted(inputs[1..], mapper)
  }

  function Fst<K, V>(): ((K, V)) -> K
  {
    (p: (K, V)) => p.0
  }

  /** The values of some pairs, in order. */
  function ValuesOf<K, V>(ps: seq<(K, V)>): (vs: seq<V>)
    ensures |vs| == |ps|
  {
    seq(|ps|, i requires 0 <= i < |ps| => ps[i].1)
  }

  /** The reducer's outputs for every collected key, concatenated. */
  function Reduced<K, V, O>(gs: seq<Group<K, (K, V)>>, reducer: (K, seq<V>) -> seq<O>): seq<O>
  {
    Flatten(seq(|gs|, i requires 0 <= i < |gs| => reducer(gs[i].key, ValuesOf(gs[i].items))))
  }

  /** `map_reduce(inputs, mapper, reducer)`. */
  function MapReduce<I, K(==), V, O>(inputs: seq<I>, mapper: I -> seq<(K, V)>, reducer: (K, seq<V>) -> seq<O>): seq<O>
  {
    Reduced(Collect(Emitted(inputs, mapper), Fst()), reducer)
  }

  /** The distinct keys emitted, in order of first emission. */
  function KeyOrder<I, K(==), V>(inputs: seq<I>, mapper: I -> seq<(K, V)>): seq<K>
  {
    Dedup(Image(Emitted(inputs, mapper), Fst()))
  }

  /** The values emitted under `k`, in emission order. */
  function ValuesFor<I, K(==), V>(inputs: seq<I>, mapper: I -> seq<(K, V)>, k: K): seq<V>
  {
    ValuesOf(Filter(Emitted(inputs, mapper), KeyIs(Fst(), k)))
  }

  /** One reducer call per distinct key, in first-seen order, on all the
      key's values. */
  function ReducerCalls<I, K(==), V, O>(inputs: seq<I>, mapper: I -> seq<(K, V)>, reducer: (K, seq<V>) -> seq<O>): (calls: seq<seq<O>>)
    ensures |calls| == |KeyOrder(inputs, mapper)|
    ensures forall i | 0 <= i < |calls| ::
              calls[i] == reducer(KeyOrder(inputs, mapper)[i], ValuesFor(inputs, mapper, KeyOrder(inputs, mapper)[i]))
  {
    var ks := KeyOrder(inputs, mapper);
    seq(|ks|, i requires 0 <= i < |ks| => reducer(ks[i], ValuesFor(inputs, mapper, ks[i])))
  }

  /** `map_reduce` calls the reducer once per distinct key, in first-seen
      key order, on all values of that key in emission order, and
      concatenates what the calls yield. */
  lemma MapReduceSpec<I, K, V, O>(inputs: seq<I>, mapper: I -> seq<(K, V)>, reducer: (K, seq<V>) -> seq<O>)
    ensures MapReduce(inputs, mapper, reducer) == Flatten(ReducerCalls(inputs, mapper, reducer))
  {
    var ps := Emitted(inputs, mapper);
    var gs := Collect(ps, Fst());
    CollectSpec(ps, Fst());
    var ks := KeyOrder(inputs, mapper);
    assert forall i | 0 <= i < |gs| :: gs[i].key == Keys(gs)[i];
    ReducedByKeys(inputs, mapper, gs, ks, reducer);
  }

  lemma {:induction false} EmittedContains<I, K, V>(inputs: seq<I>, mapper: I -> seq<(K, V)>, a: nat, q: (K, V))
    requires a < |inputs| && q in mapper(inputs[a])
    ensures q in Emitted(inputs, mapper)
  {
    if a > 0 {
      EmittedContains(inputs[1..], mapper, a - 1, q);
    }
  }

  /** Every key some input's mapper emits is reduced. */
  lemma EmittedKey<I, K, V>(inputs: seq<I>, mapper: I -> seq<(K, V)>, a: nat, q: (K, V))
    requires a < |inputs| && q in mapper(inputs[a])
    ensures q.0 in KeyOrder(inputs, mapper)
  {
    EmittedContains(inputs, mapper, a, q);
    var ps := Emitted(inputs, mapper);
    var n :| 0 <= n < |ps| && ps[n] == q;
    assert Image(ps, Fst())[n] == q.0;
  }

  lemma ReducedByKeys<I, K, V, O>(inputs: seq<I>, mapper: I -> seq<(K, V)>, gs: seq<Group<K, (K, V)>>, ks: seq<K>,
                                  reducer: (K, seq<V>) -> seq<O>)
    requires |gs| == |ks|
    requires forall i | 0 <= i < |gs| ::
               gs[i].key == ks[i] && gs[i].items == Filter(Emitted(inputs, mapper), KeyIs(Fst(), ks[i]))
    requires ks == KeyOrder(inputs, mapper)
    ensures Reduced(gs, reducer) == Flatten(ReducerCalls(inputs, mapper, reducer))
  {
    var l := seq(|gs|, i requires 0 <= i < |gs| => reducer(gs[i].key, ValuesOf(gs[i].items)));
    var r := ReducerCalls(inputs, mapper, reducer);
    forall i | 0 <= i < |gs|
      ensures l[i] == r[i]
    {
      assert ValuesOf(gs[i].items) == ValuesFor(inputs, mapper, ks[i]);
    }
    assert l == r;
  }

  /** Concatenating one-element lists lists their elements. */
  lemma {:induction false} FlattenSingletons<T>(ss: seq<seq<T>>)
    requires forall i | 0 <= i < |ss| :: |ss[i]| == 1
    ensures Flatten(ss) == seq(|ss|, i requires 0 <= i < |ss| => ss[i][0])
  {
    if |ss| > 0 {
      FlattenSingletons(ss[1..]);
    }
  }

  /** `values_reducer(values_fn)`: yields the key with `values_fn` of its
      values. */
  function ValuesReducer<K, V, W>(f: seq<V> -> W): (K, seq<V>) -> seq<(K, W)>
  {
    (k: K, vs: seq<V>) => [(k, f(vs))]
  }

  /** With a `values_reducer`, `map_reduce` yields exactly one pair per
      distinct key, in first-seen order: the key and `values_fn` of all its
      values. */
  lemma MapReduceValues<I, K, V, W>(inputs: seq<I>, mapper: I -> seq<(K, V)>, f: seq<V> -> W)
    ensures var ks := KeyOrder(inputs, mapper);
            MapReduce(inputs, mapper, ValuesReducer(f)) ==
              seq(|ks|, i requires 0 <= i < |ks| => (ks[i], f(ValuesFor(inputs, mapper, ks[i]))))
  {
    MapReduceSpec(inputs, mapper, ValuesReducer(f));
    var ss := ReducerCalls(inputs, mapper, ValuesReducer(f));
    FlattenSingletons(ss);
  }

  /** `count_distinct_reducer(user, likers)` as written: the number of
      values, duplicates included. */
  function CountDistinctReducer<K, V>(k: K, vs: seq<V>): (out: seq<(K, int)>)
    ensures |out| == 1 && out[0].0 == k && out[0].1 == |vs|
  {
    [(k, |vs|)]
  }

  /** As written, the count agrees with the number of distinct values only
      when no value repeats: two likes by the same user count twice. */
  lemma CountDistinctCountsRepeats()
    ensures CountDistinctReducer("joelgrus", ["data_guy", "data_guy"]) == [("joelgrus", 2)]
    ensures |Dedup(["data_guy", "data_guy"])| == 1
  {
    DedupConstant(["data_guy", "data_guy"], "data_guy");
  }

  /** The count the reducer's name promises: the number of different
      values. */
  function DistinctCountReducer<K, V(==)>(k: K, vs: seq<V>): (out: seq<(K, int)>)
    ensures |out| == 1 && out[0].0 == k
    ensures out[0].1 == |set x | x in vs|
    ensures out[0].1 <= |vs|
    ensures out[0].1 == |vs| <==> Distinct(vs)
  {
    DedupSet(vs);
    DistinctCard(Dedup(vs));
    DedupLength(vs);
    [(k, |Dedup(vs)|)]
  }

  /** The reducer as written and the corrected one agree exactly when no
      value repeats. */
  lemma CountDistinctAgreesWhenDistinct<K, V>(k: K, vs: seq<V>)
    ensures CountDistinctReducer(k, vs) == DistinctCountReducer(k, vs) <==> Distinct(vs)
  {
  }

  lemma DedupSet<T>(s: seq<T>)
    ensures (set x | x in Dedup(s)) == (set x | x in s)
  {
  }

  /** A sequence without repeats has as many elements as its set. */
  lemma {:induction false} DistinctCard<T>(s: seq<T>)
    requires Distinct(s)
    ensures |set x | x in s| == |s|
  {
    if |s| > 0 {
      var t := s[1..];
      DistinctCard(t);
      assert (set x | x in s) == (set x | x in t) + {s[0]};
      assert s[0] !in t;
    }
  }

  /** Deduplication shortens exactly the sequences with a repeat. */
  lemma {:induction false} DedupLength<T>(s: seq<T>)
    ensures |Dedup(s)| <= |s|
    ensures |Dedup(s)| == |s| <==> Distinct(s)
  {
    if |s| > 0 {
      var pre, x := s[..|s| - 1], s[|s| - 1];
      DedupLength(pre);
      assert s == pre + [x];
      if x in pre {
        var j :| 0 <= j < |pre| && pre[j] == x;
        assert s[j] == s[|s| - 1];
      } else {
        if Distinct(pre) {
          assert Distinct(s);
        }
        if Distinct(s) {
          assert forall i, j | 0 <= i < j < |pre| :: pre[i] == s[i] && pre[j] == s[j];
        }
      }
    }
  }

  /** With a `count_distinct_reducer` as written, `map_reduce` yields each
      key with the number of values emitted under it. */
  lemma MapReduceCountValues<I, K, V>(inputs: seq<I>, mapper: I -> seq<(K, V)>)
    ensures var ks := KeyOrder(inputs, mapper);
            MapReduce(inputs, mapper, CountDistinctReducer) ==
              seq(|ks|, i requires 0 <= i < |ks| => (ks[i], |Filter(Emitted(inputs, mapper), KeyIs(Fst(), ks[i]))|))
  {
    MapReduceSpec(inputs, mapper, CountDistinctReducer);
    var ks := KeyOrder(inputs, mapper);
    var ss := ReducerCalls(inputs, mapper, CountDistinctReducer);
    FlattenSingletons(ss);
    var r := seq(|ks|, i requires 0 <= i < |ks| => (ks[i], |Filter(Emitted(inputs, mapper), KeyIs(Fst(), ks[i]))|));
    forall i | 0 <= i < |ks|
      ensures ss[i][0] == r[i]
    {
      assert |ValuesFor(inputs, mapper, ks[i])| == |Filter(Emitted(inputs, mapper), KeyIs(Fst(), ks[i]))|;
    }
    assert seq(|ss|, i requires 0 <= i < |ss| => ss[i][0]) == r;
  }

  // Word count.

  /** `wc_mapper(doc)`: `(word, 1)` for every token, in order. */
  function WcMapper(doc: string): (ps: seq<(string, int)>)
    ensures |ps| == |Tokenise(doc)|
  {
    Ones(Tokenise(doc))
  }

  /** Each word paired with 1. */
  function Ones(ws: seq<string>): (ps: seq<(string, int)>)
    ensures |ps| == |ws|
    ensures forall i | 0 <= i < |ws| :: ps[i] == (ws[i], 1)
  {
    seq(|ws|, i requires 0 <= i < |ws| => (ws[i], 1))
  }

  /** `wc_reducer(word, counts)`: the word with the sum of its counts. */
  function WcReducer(w: string, counts: seq<int>): (out: seq<(string, int)>)
    ensures |out| == 1 && out[0].0 == w
  {
    [(w, Sum(counts))]
  }

  /** `word_count(docs)`: the same collect-and-reduce loop as `map_reduce`
      with `wc_mapper` and `wc_reducer`, written out in place. */
  function WordCount(docs: seq<string>): seq<(string, int)>
  {
    MapReduce(docs, WcMapper, WcReducer)
  }

  /** Every token of every document, in order. */
  function Words(docs: seq<string>): seq<string>
  {
    if |docs| == 0 then [] else Tokenise(docs[0]) + Words(docs[1..])
  }

  /** `word_count_old(docs)`: the items of a `Counter` of all tokens, words
      in first-seen order with their number of occurrences. */
  function WordCountOld(docs: seq<string>): (items: seq<(string, int)>)
    ensures |items| == |Dedup(Words(docs))|
  {
    var ws := Words(docs);
    var ds := Dedup(ws);
    seq(|ds|, i requires 0 <= i < |ds| => (ds[i], Count(ws, ds[i])))
  }

  lemma {:induction false} EmittedWords(docs: seq<string>)
    ensures Emitted(docs, WcMapper) == Ones(Words(docs))
  {
    if |docs| > 0 {
      EmittedWords(docs[1..]);
      var a, b := Tokenise(docs[0]), Words(docs[1..]);
      assert Ones(a + b) == Ones(a) + Ones(b);
    }
  }

  lemma ImageOnes(ws: seq<string>)
    ensures Image(Ones(ws), Fst()) == ws
  {
  }

  /** The counts emitted for `w` add up to its number of occurrences. */
  lemma {:induction false} SumOnes(ws: seq<string>, w: string)
    ensures Sum(ValuesOf(Filter(Ones(ws), KeyIs(Fst(), w)))) == Count(ws, w)
  {
    if |ws| > 0 {
      SumOnes(ws[1..], w);
      assert Ones(ws)[1..] == Ones(ws[1..]);
      var p := KeyIs(Fst(), w);
      var rest := Filter(Ones(ws[1..]), p);
      if ws[0] == w {
        assert Filter(Ones(ws), p) == [(w, 1)] + rest;
        assert ValuesOf([(w, 1)] + rest) == [1] + ValuesOf(rest);
      } else {
        assert Filter(Ones(ws), p) == rest;
      }
    }
  }

  lemma KeyOrderWords(docs: seq<string>)
    ensures KeyOrder(docs, WcMapper) == Dedup(Words(docs))
  {
    EmittedWords(docs);
    ImageOnes(Words(docs));
  }

  /** The counts collected for a word add up to its occurrences. */
  lemma CountsForWord(docs: seq<string>, w: string)
    ensures Sum(ValuesFor(docs, WcMapper, w)) == Count(Words(docs), w)
  {
    EmittedWords(docs);
    SumOnes(Words(docs), w);
  }

  /** The reducer call for the `i`-th word yields that word's `Counter`
      item. */
  lemma WordCountCall(docs: seq<string>, i: nat)
    requires i < |KeyOrder(docs, WcMapper)|
    ensures KeyOrder(docs, WcMapper) == Dedup(Words(docs))
    ensures ReducerCalls(docs, WcMapper, WcReducer)[i] == [WordCountOld(docs)[i]]
  {
    KeyOrderWords(docs);
    CountsForWord(docs, KeyOrder(docs, WcMapper)[i]);
  }

  /** The map-reduce word count equals the `Counter` one: each distinct
      word once, in first-seen order, with its total number of
      occurrences across all documents. */
  lemma WordCountAgrees(docs: seq<string>)
    ensures WordCount(docs) == WordCountOld(docs)
  {
    MapReduceSpec(docs, WcMapper, WcReducer);
    WordCountCalls(docs);
  }

  /** The reducer calls, concatenated, are the `Counter` items. */
  lemma WordCountCalls(docs: seq<string>)
    ensures Flatten(ReducerCalls(docs, WcMapper, WcReducer)) == WordCountOld(docs)
  {
    KeyOrderWords(docs);
    var ss := ReducerCalls(docs, WcMapper, WcReducer);
    var old_ := WordCountOld(docs);
    forall i | 0 <= i < |ss|
      ensures ss[i] == [old_[i]]
    {
      WordCountCall(docs, i);
    }
    FlattenSingletons(ss);
    SingletonHeads(ss, old_);
  }

  lemma SingletonHeads<T>(ss: seq<seq<T>>, xs: seq<T>)
    requires |ss| == |xs| && forall i | 0 <= i < |ss| :: ss[i] == [xs[i]]
    ensures seq(|ss|, i requires 0 <= i < |ss| => ss[i][0]) == xs
  {
  }

  /** The number of occurrences in `s` of each element of `ds`. */
  function Tally<T(==)>(s: seq<T>, ds: seq<T>): (cs: seq<int>)
    ensures |cs| == |ds|
    ensures forall i | 0 <= i < |ds| :: cs[i] == Count(s, ds[i])
  {
    seq(|ds|, i requires 0 <= i < |ds| => Count(s, ds[i]))
  }

  lemma CountSnoc<T>(pre: seq<T>, x: T, y: T)
    ensures Count(pre + [x], y) == Count(pre, y) + (if x == y then 1 else 0)
  {
    CountAppend(pre, [x], y);
  }

  /** One more `x` adds one to the tally for every copy of `x` tallied. */
  lemma {:induction false} TallySnoc<T>(pre: seq<T>, x: T, d: seq<T>)
    ensures Sum(Tally(pre + [x], d)) == Sum(Tally(pre, d)) + Count(d, x)
  {
    if |d| > 0 {
      TallySnoc(pre, x, d[1..]);
      assert Tally(pre + [x], d)[1..] == Tally(pre + [x], d[1..]);
      assert Tally(pre, d)[1..] == Tally(pre, d[1..]);
      CountSnoc(pre, x, d[0]);
    }
  }

  lemma {:induction false} CountDistinct<T>(d: seq<T>, x: T)
    requires Distinct(d) && x in d
    ensures Count(d, x) == 1
  {
    if d[0] == x {
      assert x !in d[1..];
      CountPositive(d[1..], x);
    } else {
      CountDistinct(d[1..], x);
    }
  }

  /** A repeated element adds one to its own count. */
  lemma TallySeen<T>(pre: seq<T>, x: T)
    requires x in pre
    ensures Sum(Tally(pre + [x], Dedup(pre + [x]))) == Sum(Tally(pre, Dedup(pre))) + 1
  {
    var s := pre + [x];
    assert s[..|s| - 1] == pre;
    var d := Dedup(pre);
    assert Dedup(s) == d;
    TallySnoc(pre, x, d);
    CountDistinct(d, x);
  }

  lemma TallyAppend<T>(s: seq<T>, d: seq<T>, y: T)
    ensures Sum(Tally(s, d + [y])) == Sum(Tally(s, d)) + Count(s, y)
  {
    assert Tally(s, d + [y]) == Tally(s, d) + [Count(s, y)];
    SumAppend(Tally(s, d), [Count(s, y)]);
  }

  /** A new element is tallied once, at the end. */
  lemma TallyNew<T>(pre: seq<T>, x: T)
    requires x !in pre
    ensures Sum(Tally(pre + [x], Dedup(pre + [x]))) == Sum(Tally(pre, Dedup(pre))) + 1
  {
    var d := Dedup(pre);
    DedupSnocNew(pre, x);
    TallySnoc(pre, x, d);
    CountPositive(d, x);
    TallyAppend(pre + [x], d, x);
    CountSnoc(pre, x, x);
    CountPositive(pre, x);
  }

  /** Counting every distinct element accounts for every element once. */
  lemma {:induction false} SumCountDedup<T>(s: seq<T>)
    ensures Sum(Tally(s, Dedup(s))) == |s|
  {
    if |s| > 0 {
      var pre, x := s[..|s| - 1], s[|s| - 1];
      assert s == pre + [x];
      SumCountDedup(pre);
      if x in pre {
        TallySeen(pre, x);
      } else {
        TallyNew(pre, x);
      }
    }
  }

  /** The `Counter` items split into the distinct words and their
      tallies. */
  lemma WordCountOldParts(docs: seq<string>)
    ensures var items := WordCountOld(docs);
            && seq(|items|, i requires 0 <= i < |items| => items[i].0) == Dedup(Words(docs))
            && ValuesOf(items) == Tally(Words(docs), Dedup(Words(docs)))
  {
  }

  /** `word_count` lists every word once, and its counts add up to the
      number of tokens in all documents. */
  lemma WordCountTotals(docs: seq<string>)
    ensures Distinct(seq(|WordCount(docs)|, i requires 0 <= i < |WordCount(docs)| => WordCount(docs)[i].0))
    ensures Sum(ValuesOf(WordCount(docs))) == |Words(docs)|
  {
    WordCountAgrees(docs);
    SumCountDedup(Words(docs));
    WordCountOldParts(docs);
  }
}
