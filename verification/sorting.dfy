/** Python's `list.sort(key=...)`: an ascending, stable sort by a key.
    Keys are numbers here (Python compares `int`, `bool` and `float` keys by
    value), carried as reals. */
module Sorting {
  import opened Seqs

  predicate SortedBy<T>(s: seq<T>, key: T -> real)
  {
    forall i, j | 0 <= i < j < |s| :: key(s[i]) <= key(s[j])
  }

  /** The elements whose key is `k`. */
  function HasKey<T>(key: T -> real, k: real): T -> bool
  {
    x => key(x) == k
  }

  /** An element whose key bounds a sorted sequence's keys from below can
      go in front of it. */
  lemma SortedCons<T>(y: T, s: seq<T>, key: T -> real)
    requires SortedBy(s, key)
    requires forall j | 0 <= j < |s| :: key(y) <= key(s[j])
    ensures SortedBy([y] + s, key)
  {
  }

  /** A lower bound of the keys of `s` and of `key(x)` bounds the keys of
      any rearrangement of `s` with `x` added. */
  lemma BoundAfterInsert<T>(y: T, x: T, s: seq<T>, r: seq<T>, key: T -> real)
    requires multiset(r) == multiset(s) + multiset{x}
    requires key(y) <= key(x)
    requires forall j | 0 <= j < |s| :: key(y) <= key(s[j])
    ensures forall j | 0 <= j < |r| :: key(y) <= key(r[j])
  {
    forall j | 0 <= j < |r|
      ensures key(y) <= key(r[j])
    {
      assert r[j] in multiset(r);
      if r[j] != x {
        assert r[j] in multiset(s);
        var k :| 0 <= k < |s| && s[k] == r[j];
      }
    }
  }

  /** Puts `x` in front of the first element whose key is not smaller than
      its own, so that it precedes every element with an equal key. */
  function InsertBefore<T>(x: T, s: seq<T>, key: T -> real): (r: seq<T>)
    ensures |r| == |s| + 1
    ensures multiset(r) == multiset(s) + multiset{x}
    ensures SortedBy(s, key) ==> SortedBy(r, key)
  {
    if |s| == 0 || key(x) <= key(s[0]) then
      if SortedBy(s, key) then
        SortedCons(x, s, key);
        [x] + s
      else [x] + s
    else
      var rest := InsertBefore(x, s[1..], key);
      assert s == [s[0]] + s[1..];
      if SortedBy(s, key) then
        BoundAfterInsert(s[0], x, s[1..], rest, key);
        SortedCons(s[0], rest, key);
        [s[0]] + rest
      else [s[0]] + rest
  }

  /** The sorted copy: each element is inserted ahead of the equal-keyed
      elements that come after it in the input. */
  function SortBy<T>(s: seq<T>, key: T -> real): (r: seq<T>)
    ensures |r| == |s|
    ensures SortedBy(r, key)
    ensures multiset(r) == multiset(s)
  {
    if |s| == 0 then []
    else
      assert s == [s[0]] + s[1..];
      InsertBefore(s[0], SortBy(s[1..], key), key)
  }

  lemma {:induction false} InsertBeforeKeyOrder<T>(x: T, s: seq<T>, key: T -> real, k: real)
    ensures Filter(InsertBefore(x, s, key), HasKey(key, k)) ==
            (if key(x) == k then [x] else []) + Filter(s, HasKey(key, k))
  {
    if |s| == 0 || key(x) <= key(s[0]) {
    } else {
      InsertBeforeKeyOrder(x, s[1..], key, k);
    }
  }

  /** Stability: the elements sharing any one key keep their input order. */
  lemma {:induction false} SortByStable<T>(s: seq<T>, key: T -> real, k: real)
    ensures Filter(SortBy(s, key), HasKey(key, k)) == Filter(s, HasKey(key, k))
  {
    if |s| > 0 {
      SortByStable(s[1..], key, k);
      InsertBeforeKeyOrder(s[0], SortBy(s[1..], key), key, k);
    }
  }

  lemma KeyOfFirstKept<T>(s: seq<T>, key: T -> real)
    requires |s| > 0
    ensures Filter(s, HasKey(key, key(s[0]))) != []
  {
  }

  /** The first element of a sorted sequence has the smallest key. */
  lemma FirstKeySmallest<T>(s: seq<T>, key: T -> real, x: T)
    requires SortedBy(s, key) && x in s
    ensures key(s[0]) <= key(x)
  {
    var j :| 0 <= j < |s| && s[j] == x;
  }

  /** Two sorted arrangements with the same elements for the keys of their
      first elements start with the same element: the first element of the
      smallest key. */
  lemma StableSortHeads<T>(a: seq<T>, b: seq<T>, key: T -> real)
    requires |a| > 0 && |b| > 0
    requires SortedBy(a, key) && SortedBy(b, key)
    requires Filter(a, HasKey(key, key(a[0]))) == Filter(b, HasKey(key, key(a[0])))
    requires Filter(a, HasKey(key, key(b[0]))) == Filter(b, HasKey(key, key(b[0])))
    ensures a[0] == b[0]
  {
    var pa := HasKey(key, key(a[0]));
    var pb := HasKey(key, key(b[0]));
    FilterCons(a, pa);
    assert a[0] in Filter(b, pa);
    FilterMembership(b, pa, a[0]);
    FirstKeySmallest(b, key, a[0]);
    FilterCons(b, pb);
    assert b[0] in Filter(a, pb);
    FilterMembership(a, pb, b[0]);
    FirstKeySmallest(a, key, b[0]);
    assert key(a[0]) == key(b[0]);
    assert pa(b[0]);
    FilterCons(b, pa);
    assert Filter(b, pa)[0] == b[0];
    assert Filter(a, pa)[0] == a[0];
  }

  /** Removing equal first elements keeps the elements per key equal. */
  lemma StableSortTails<T>(a: seq<T>, b: seq<T>, key: T -> real, k: real)
    requires |a| > 0 && |b| > 0 && a[0] == b[0]
    requires Filter(a, HasKey(key, k)) == Filter(b, HasKey(key, k))
    ensures Filter(a[1..], HasKey(key, k)) == Filter(b[1..], HasKey(key, k))
  {
    var p := HasKey(key, k);
    FilterCons(a, p);
    FilterCons(b, p);
    if p(a[0]) {
      assert Filter(a[1..], p) == Filter(a, p)[1..];
      assert Filter(b[1..], p) == Filter(b, p)[1..];
    }
  }

  /** A sorted arrangement in which every key's elements keep the input
      order is unique. */
  lemma {:induction false} StableSortUnique<T>(a: seq<T>, b: seq<T>, key: T -> real)
    requires SortedBy(a, key) && SortedBy(b, key)
    requires forall k :: Filter(a, HasKey(key, k)) == Filter(b, HasKey(key, k))
    ensures a == b
  {
    if |a| == 0 || |b| == 0 {
      if |a| > 0 {
        KeyOfFirstKept(a, key);
      } else if |b| > 0 {
        KeyOfFirstKept(b, key);
      }
    } else {
      StableSortHeads(a, b, key);
      forall k
        ensures Filter(a[1..], HasKey(key, k)) == Filter(b[1..], HasKey(key, k))
      {
        StableSortTails(a, b, key, k);
      }
      StableSortUnique(a[1..], b[1..], key);
      assert a == [a[0]] + a[1..] && b == [b[0]] + b[1..];
    }
  }

  /** `SortBy` is THE stable sort: any sorted arrangement of the input that
      keeps equal-keyed elements in input order is equal to it. */
  lemma SortByIsStableSort<T>(s: seq<T>, key: T -> real, r: seq<T>)
    requires SortedBy(r, key)
    requires forall k :: Filter(r, HasKey(key, k)) == Filter(s, HasKey(key, k))
    ensures r == SortBy(s, key)
  {
    forall k
      ensures Filter(r, HasKey(key, k)) == Filter(SortBy(s, key), HasKey(key, k))
    {
      SortByStable(s, key, k);
    }
    StableSortUnique(r, SortBy(s, key), key);
  }
}
