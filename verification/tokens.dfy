/** `tokenise(doc)` of pytemp/mapred.py, which is Python's `doc.split()`
    with no separator: the maximal runs of non-whitespace characters, so
    that runs of whitespace and leading or trailing whitespace produce no
    empty tokens. */
module Tokens {
  import opened Seqs

  /** The characters `str.split()` treats as whitespace (`str.isspace`). */
  predicate IsSpace(c: char)
  {
    var n := c as int;
    (0x09 <= n <= 0x0D) || (0x1C <= n <= 0x20) || n == 0x85 || n == 0xA0
    || n == 0x1680 || (0x2000 <= n <= 0x200A) || n == 0x2028 || n == 0x2029
    || n == 0x202F || n == 0x205F || n == 0x3000
  }

  function NotSpace(): char -> bool
  {
    c => !IsSpace(c)
  }

  /** A token: non-empty and free of whitespace. */
  predicate IsWord(w: string)
  {
    |w| > 0 && forall i | 0 <= i < |w| :: !IsSpace(w[i])
  }

  /** Length of the run of non-whitespace characters `doc` starts with. */
  function WordLen(doc: string): (n: nat)
    ensures n <= |doc|
    ensures forall i | 0 <= i < n :: !IsSpace(doc[i])
    ensures n < |doc| ==> IsSpace(doc[n])
  {
    if |doc| == 0 || IsSpace(doc[0]) then 0 else 1 + WordLen(doc[1..])
  }

  function Tokenise(doc: string): (ws: seq<string>)
    ensures forall k | 0 <= k < |ws| :: IsWord(ws[k])
    decreases |doc|
  {
    if |doc| == 0 then []
    else if IsSpace(doc[0]) then Tokenise(doc[1..])
    else
      var n := WordLen(doc);
      [doc[..n]] + Tokenise(doc[n..])
  }

  /** No character is lost but whitespace: the tokens spell out the
      document's non-whitespace characters, in order. */
  lemma {:induction false} TokensSpellDocument(doc: string)
    ensures Flatten(Tokenise(doc)) == Filter(doc, NotSpace())
    decreases |doc|
  {
    if |doc| > 0 {
      if IsSpace(doc[0]) {
        TokensSpellDocument(doc[1..]);
      } else {
        var n := WordLen(doc);
        TokensSpellDocument(doc[n..]);
        assert doc == doc[..n] + doc[n..];
        FilterAppend(doc[..n], doc[n..], NotSpace());
        FilterAll(doc[..n], NotSpace());
        assert Flatten(Tokenise(doc)) == doc[..n] + Flatten(Tokenise(doc[n..]));
      }
    }
  }

  /** A single word is one token. */
  lemma {:induction false} TokeniseWord(w: string)
    requires IsWord(w)
    ensures Tokenise(w) == [w]
  {
    WordLenAll(w);
    assert !IsSpace(w[0]);
    assert w[..|w|] == w && w[|w|..] == [];
    assert Tokenise(w) == [w[..|w|]] + Tokenise(w[|w|..]);
  }

  lemma {:induction false} WordLenAll(w: string)
    requires forall i | 0 <= i < |w| :: !IsSpace(w[i])
    ensures WordLen(w) == |w|
  {
    if |w| > 0 {
      WordLenAll(w[1..]);
    }
  }

  lemma {:induction false} WordLenPrefix(a: string, b: string)
    requires WordLen(a) < |a|
    ensures WordLen(a + b) == WordLen(a)
  {
    if !IsSpace(a[0]) {
      assert (a + b)[1..] == a[1..] + b;
      WordLenPrefix(a[1..], b);
    }
  }

  lemma {:induction false} WordLenThenSpace(a: string, c: char, b: string)
    requires WordLen(a) == |a| && IsSpace(c)
    ensures WordLen(a + [c] + b) == |a|
  {
    if |a| > 0 {
      assert (a + [c] + b)[1..] == a[1..] + [c] + b;
      WordLenThenSpace(a[1..], c, b);
    }
  }

  /** The first step of `Tokenise` on a document that starts with a word
      of length `n`. */
  lemma TokeniseWordFirst(d: string, n: nat)
    requires 0 < n <= |d| && WordLen(d) == n
    ensures Tokenise(d) == [d[..n]] + Tokenise(d[n..])
  {
  }

  /** Leading whitespace is skipped. */
  lemma TokeniseSpaceFirst(d: string)
    requires |d| > 0 && IsSpace(d[0])
    ensures Tokenise(d) == Tokenise(d[1..])
  {
  }

  /** A whole word followed by whitespace: the word, then the rest. */
  lemma TokeniseWordThenSpace(a: string, c: char, b: string)
    requires IsWord(a) && IsSpace(c)
    ensures Tokenise(a + [c] + b) == [a] + Tokenise(b)
  {
    var d := a + [c] + b;
    WordLenAll(a);
    WordLenThenSpace(a, c, b);
    assert d[..|a|] == a;
    assert d[|a|..] == [c] + b;
    TokeniseWordFirst(d, |a|);
    assert ([c] + b)[1..] == b;
    TokeniseSpaceFirst([c] + b);
  }

  /** A word that ends before the separator is split off unchanged. */
  lemma TokeniseShortWord(a: string, c: char, b: string)
    requires 0 < WordLen(a) < |a|
    ensures var n := WordLen(a);
            Tokenise(a + [c] + b) == [a[..n]] + Tokenise(a[n..] + [c] + b)
  {
    var d := a + [c] + b;
    var n := WordLen(a);
    WordLenPrefix(a, [c] + b);
    assert d == a + ([c] + b);
    assert d[..n] == a[..n];
    assert d[n..] == a[n..] + [c] + b;
    TokeniseWordFirst(d, n);
  }

  /** The inductive step of `TokeniseSplitsAtSpace` past leading
      whitespace. */
  lemma SplitsAfterSpace(a: string, c: char, b: string)
    requires |a| > 0 && IsSpace(a[0])
    requires Tokenise(a[1..] + [c] + b) == Tokenise(a[1..]) + Tokenise(b)
    ensures Tokenise(a + [c] + b) == Tokenise(a) + Tokenise(b)
  {
    TokeniseSpaceFirst(a + [c] + b);
    TokeniseSpaceFirst(a);
    assert (a + [c] + b)[1..] == a[1..] + [c] + b;
  }

  /** The inductive step of `TokeniseSplitsAtSpace` past a leading word
      that ends before the separator. */
  lemma SplitsAfterWord(a: string, c: char, b: string)
    requires 0 < WordLen(a) < |a|
    requires Tokenise(a[WordLen(a)..] + [c] + b) == Tokenise(a[WordLen(a)..]) + Tokenise(b)
    ensures Tokenise(a + [c] + b) == Tokenise(a) + Tokenise(b)
  {
    TokeniseShortWord(a, c, b);
    TokeniseWordFirst(a, WordLen(a));
  }

  /** Whitespace separates: splitting around a whitespace character gives
      the tokens of each side, in order. */
  lemma {:induction false} TokeniseSplitsAtSpace(a: string, c: char, b: string)
    requires IsSpace(c)
    ensures Tokenise(a + [c] + b) == Tokenise(a) + Tokenise(b)
    decreases |a|
  {
    if |a| == 0 {
      TokeniseSpaceFirst([c] + b);
      assert a + [c] + b == [c] + b && ([c] + b)[1..] == b;
    } else if IsSpace(a[0]) {
      TokeniseSplitsAtSpace(a[1..], c, b);
      SplitsAfterSpace(a, c, b);
    } else if WordLen(a) == |a| {
      TokeniseWordThenSpace(a, c, b);
      TokeniseWord(a);
    } else {
      TokeniseSplitsAtSpace(a[WordLen(a)..], c, b);
      SplitsAfterWord(a, c, b);
    }
  }

  /** `' '.join(words)`. */
  function JoinSpace(ws: seq<string>): string
  {
    if |ws| == 0 then ""
    else if |ws| == 1 then ws[0]
    else ws[0] + " " + JoinSpace(ws[1..])
  }

  /** Splitting words joined by single spaces gives the words back. */
  lemma {:induction false} TokeniseJoin(ws: seq<string>)
    requires forall k | 0 <= k < |ws| :: IsWord(ws[k])
    ensures Tokenise(JoinSpace(ws)) == ws
  {
    if |ws| == 1 {
      TokeniseWord(ws[0]);
    } else if |ws| > 1 {
      TokeniseJoin(ws[1..]);
      TokeniseWord(ws[0]);
      assert ws[0] + " " + JoinSpace(ws[1..]) == ws[0] + [' '] + JoinSpace(ws[1..]);
      TokeniseSplitsAtSpace(ws[0], ' ', JoinSpace(ws[1..]));
    }
  }
}
