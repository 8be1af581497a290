/**
  `sorted()` applied to a set of URLs.  Python orders `str` values
  lexicographically by code point, a proper prefix coming first; the model
  sorts by repeatedly taking the least remaining URL.
 */
module Sorting {

  /** Python's `a < b` on `str`. */
  predicate LexLess(a: string, b: string)
    decreases |a|
  {
    if a == [] then b != []
    else if b == [] then false
    else if a[0] != b[0] then a[0] < b[0]
    else LexLess(a[1..], b[1..])
  }

  lemma {:induction false} LexLessIrreflexive(a: string)
    ensures !LexLess(a, a)
    decreases |a|
  {
    if a != [] {
      LexLessIrreflexive(a[1..]);
    }
  }

  lemma {:induction false} LexLessTransitive(a: string, b: string, c: string)
    requires LexLess(a, b) && LexLess(b, c)
    ensures LexLess(a, c)
    decreases |a|
  {
    if a != [] && b != [] && c != [] && a[0] == b[0] && b[0] == c[0] {
      LexLessTransitive(a[1..], b[1..], c[1..]);
    }
  }

  lemma {:induction false} LexLessTotal(a: string, b: string)
    requires a != b
    ensures LexLess(a, b) || LexLess(b, a)
    decreases |a|
  {
    if a != [] && b != [] && a[0] == b[0] {
      assert a == [a[0]] + a[1..] && b == [b[0]] + b[1..];
      LexLessTotal(a[1..], b[1..]);
    }
  }

  /** Each element is smaller than every later one (so no element repeats). */
  predicate StrictlyAscending(s: seq<string>) {
    forall i, j :: 0 <= i < j < |s| ==> LexLess(s[i], s[j])
  }

  function Elems(s: seq<string>): set<string> {
    set x | x in s
  }

  /** Two ascending sequences with the same elements are equal: the sorted order is determined. */
  lemma {:induction false} AscendingIsUnique(a: seq<string>, b: seq<string>)
    requires StrictlyAscending(a) && StrictlyAscending(b) && Elems(a) == Elems(b)
    ensures a == b
    decreases |a|
  {
    ElemsOfNonEmpty(a);
    ElemsOfNonEmpty(b);
    if a != [] && b != [] {
      assert a[0] in Elems(b) && b[0] in Elems(a);
      if a[0] != b[0] {
        var i :| 0 <= i < |a| && a[i] == b[0];
        var j :| 0 <= j < |b| && b[j] == a[0];
        assert i != 0 && j != 0;
        LexLessTransitive(a[0], b[0], a[0]);
        LexLessIrreflexive(a[0]);
      }
      forall x | x in Elems(a[1..]) ensures x in Elems(b[1..]) {
        var i :| 1 <= i < |a| && a[i] == x;
        LexLessIrreflexive(x);
        assert x in Elems(b) && x != b[0];
      }
      forall x | x in Elems(b[1..]) ensures x in Elems(a[1..]) {
        var j :| 1 <= j < |b| && b[j] == x;
        LexLessIrreflexive(x);
        assert x in Elems(a) && x != a[0];
      }
      AscendingIsUnique(a[1..], b[1..]);
      assert a == [a[0]] + a[1..] && b == [b[0]] + b[1..];
    }
  }

  lemma ElemsOfNonEmpty(s: seq<string>)
    ensures s != [] ==> s[0] in Elems(s)
  {
  }

  /** The least element of a non-empty set, found by one pass over it. */
  method MinOf(s: set<string>) returns (m: string)
    requires s != {}
    ensures m in s
    ensures forall y :: y in s && y != m ==> LexLess(m, y)
  {
    m :| m in s;
    var rest := s - {m};
    while rest != {}
      invariant rest <= s && m in s && m !in rest
      invariant forall y :: y in s && y !in rest && y != m ==> LexLess(m, y)
      decreases |rest|
    {
      var x :| x in rest;
      if LexLess(x, m) {
        forall y | y in s && y !in rest && y != x
          ensures LexLess(x, y)
        {
          if y != m {
            LexLessTransitive(x, m, y);
          }
        }
        m := x;
      } else {
        LexLessTotal(x, m);
      }
      rest := rest - {x};
    }
  }

  /** Midway through sorting `s`: `r` and `rest` together hold each element of `s` once. */
  predicate SortSplit(s: set<string>, r: seq<string>, rest: set<string>) {
    rest <= s && Elems(r) + rest == s && Elems(r) !! rest && |r| + |rest| == |s|
  }

  /** Midway through sorting: `r` is ascending and below everything still in `rest`. */
  predicate SortOrder(r: seq<string>, rest: set<string>) {
    && StrictlyAscending(r)
    && (forall i, y :: 0 <= i < |r| && y in rest ==> LexLess(r[i], y))
  }

  /** Moving an element of `rest` to the end of `r` keeps the split. */
  lemma SplitStep(s: set<string>, r: seq<string>, rest: set<string>, m: string)
    requires SortSplit(s, r, rest) && m in rest
    ensures SortSplit(s, r + [m], rest - {m})
  {
    assert Elems(r + [m]) == Elems(r) + {m} by {
      assert forall i :: 0 <= i < |r| ==> (r + [m])[i] == r[i];
    }
  }

  /** Moving the least element of `rest` to the end of `r` keeps the order. */
  lemma OrderStep(r: seq<string>, rest: set<string>, m: string)
    requires SortOrder(r, rest)
    requires m in rest && forall y :: y in rest && y != m ==> LexLess(m, y)
    ensures SortOrder(r + [m], rest - {m})
  {
    var r' := r + [m];
    forall i, j | 0 <= i < j < |r'| ensures LexLess(r'[i], r'[j]) {
      assert r'[i] == r[i];
      if j < |r| {
        assert r'[j] == r[j];
      }
    }
    forall i, y | 0 <= i < |r'| && y in rest - {m} ensures LexLess(r'[i], y) {
      if i < |r| {
        assert r'[i] == r[i];
      }
    }
  }

  /** `sorted(s)`: every element of `s` once, in ascending order. */
  method SortedSeq(s: set<string>) returns (r: seq<string>)
    ensures Elems(r) == s && |r| == |s|
    ensures StrictlyAscending(r)
  {
    r := [];
    var rest := s;
    while rest != {}
      invariant SortSplit(s, r, rest) && SortOrder(r, rest)
      decreases |rest|
    {
      var m := MinOf(rest);
      SplitStep(s, r, rest, m);
      OrderStep(r, rest, m);
      r := r + [m];
      rest := rest - {m};
    }
  }
}
