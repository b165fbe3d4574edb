/** Order-preserving filtering of lists, the shape of JavaScript's Array.prototype.filter. */
module Seqs {

  /** xs.filter(p): the elements of xs that satisfy p, in their original order. */
  function Filter<T(==,!new)>(xs: seq<T>, p: T -> bool): (r: seq<T>)
    ensures |r| <= |xs|
    ensures forall x :: x in r <==> x in xs && p(x)
    decreases |xs|
  {
    if xs == [] then []
    else if p(xs[0]) then [xs[0]] + Filter(xs[1..], p)
    else Filter(xs[1..], p)
  }

  /** a can be obtained from b by deleting elements (order is kept). */
  predicate IsSubsequence<T(==)>(a: seq<T>, b: seq<T>)
    decreases |b|
  {
    if a == [] then true
    else if b == [] then false
    else if a[0] == b[0] then IsSubsequence(a[1..], b[1..])
    else IsSubsequence(a, b[1..])
  }

  lemma {:induction false} FilterIsSubsequence<T(!new)>(xs: seq<T>, p: T -> bool)
    ensures IsSubsequence(Filter(xs, p), xs)
    decreases |xs|
  {
    if xs != [] {
      FilterIsSubsequence(xs[1..], p);
      var r := Filter(xs[1..], p);
      if p(xs[0]) {
        assert Filter(xs, p) == [xs[0]] + r;
        assert ([xs[0]] + r)[1..] == r;
      } else {
        SubsequenceDropHead(r, xs);
      }
    }
  }

  /** A subsequence of the tail is a subsequence of the whole list. */
  lemma {:induction false} SubsequenceDropHead<T(!new)>(a: seq<T>, b: seq<T>)
    requires b != [] && IsSubsequence(a, b[1..])
    ensures IsSubsequence(a, b)
    decreases |b|, 0
  {
    if a != [] && a[0] == b[0] {
      SubsequenceOfTail(a, b[1..]);
    }
  }

  /** Dropping the first element of a subsequence keeps it a subsequence. */
  lemma {:induction false} SubsequenceOfTail<T(!new)>(a: seq<T>, c: seq<T>)
    requires a != [] && IsSubsequence(a, c)
    ensures IsSubsequence(a[1..], c)
    decreases |c|, 1
  {
    if a[0] == c[0] {
      SubsequenceDropHead(a[1..], c);
    } else {
      SubsequenceOfTail(a, c[1..]);
      SubsequenceDropHead(a[1..], c);
    }
  }

  /** A subsequence of a subsequence is a subsequence. */
  lemma {:induction false} SubsequenceTransitive<T(!new)>(a: seq<T>, b: seq<T>, c: seq<T>)
    requires IsSubsequence(a, b) && IsSubsequence(b, c)
    ensures IsSubsequence(a, c)
    decreases |c|
  {
    if a != [] {
      assert b != [] && c != [];
      if b[0] == c[0] {
        if a[0] == b[0] {
          SubsequenceTransitive(a[1..], b[1..], c[1..]);
        } else {
          SubsequenceTransitive(a, b[1..], c[1..]);
          SubsequenceDropHead(a, c);
        }
      } else {
        SubsequenceTransitive(a, b, c[1..]);
        SubsequenceDropHead(a, c);
      }
    }
  }

  /** Filtering a subsequence of a list yields a subsequence of that list. */
  lemma FilterNarrows<T(!new)>(xs: seq<T>, whole: seq<T>, p: T -> bool)
    requires IsSubsequence(xs, whole)
    ensures IsSubsequence(Filter(xs, p), whole)
  {
    FilterIsSubsequence(xs, p);
    SubsequenceTransitive(Filter(xs, p), xs, whole);
  }

  /**
   * if (apply) xs = xs.filter(p): one step of a chain of optional filters
   * over a subsequence of whole; the result is still a subsequence of whole.
   */
  method FilterWhen<T(==,!new)>(xs: seq<T>, ghost whole: seq<T>, apply: bool, p: T -> bool) returns (r: seq<T>)
    requires IsSubsequence(xs, whole)
    ensures IsSubsequence(r, whole)
    ensures forall x :: x in r <==> x in xs && (apply ==> p(x))
    ensures !apply ==> r == xs
    ensures apply || (forall x :: x in xs ==> p(x)) ==> r == Filter(xs, p)
  {
    if apply {
      FilterNarrows(xs, whole, p);
      r := Filter(xs, p);
    } else {
      r := xs;
      if forall x :: x in xs ==> p(x) {
        FilterKeepsAll(xs, p);
      }
    }
  }

  /** Every list is a subsequence of itself. */
  lemma {:induction false} SubsequenceReflexive<T(!new)>(a: seq<T>)
    ensures IsSubsequence(a, a)
    decreases |a|
  {
    if a != [] {
      SubsequenceReflexive(a[1..]);
    }
  }

  /** A filter whose predicate holds everywhere keeps the whole list. */
  lemma {:induction false} FilterKeepsAll<T(!new)>(xs: seq<T>, p: T -> bool)
    requires forall x :: x in xs ==> p(x)
    ensures Filter(xs, p) == xs
    decreases |xs|
  {
    if xs != [] {
      assert xs[0] in xs;
      assert forall x :: x in xs[1..] ==> x in xs;
      FilterKeepsAll(xs[1..], p);
      assert [xs[0]] + xs[1..] == xs;
    }
  }

  /** Two successive filters are one filter by the conjunction of their predicates. */
  lemma {:induction false} FilterFilter<T(!new)>(xs: seq<T>, p: T -> bool, q: T -> bool, both: T -> bool)
    requires forall x :: both(x) == (p(x) && q(x))
    ensures Filter(Filter(xs, p), q) == Filter(xs, both)
    decreases |xs|
  {
    if xs != [] {
      FilterFilter(xs[1..], p, q, both);
      if p(xs[0]) {
        var r := Filter(xs[1..], p);
        assert Filter(xs, p) == [xs[0]] + r;
        assert ([xs[0]] + r)[1..] == r;
      }
    }
  }

  /** Filtering a list with a given head decides the head first. */
  lemma FilterCons<T(!new)>(x: T, rest: seq<T>, p: T -> bool)
    ensures Filter([x] + rest, p) == (if p(x) then [x] else []) + Filter(rest, p)
  {
    var xs := [x] + rest;
    assert xs[0] == x && xs[1..] == rest;
  }

  /** Filtering distributes over concatenation. */
  lemma {:induction false} FilterAppend<T(!new)>(a: seq<T>, b: seq<T>, p: T -> bool)
    ensures Filter(a + b, p) == Filter(a, p) + Filter(b, p)
    decreases |a|
  {
    if a == [] {
      assert a + b == b;
    } else {
      var x, rest := a[0], a[1..];
      var h := if p(x) then [x] else [];
      assert a == [x] + rest;
      assert a + b == [x] + (rest + b);
      calc {
        Filter(a + b, p);
        { FilterCons(x, rest + b, p); }
        h + Filter(rest + b, p);
        { FilterAppend(rest, b, p); }
        h + (Filter(rest, p) + Filter(b, p));
        (h + Filter(rest, p)) + Filter(b, p);
        { FilterCons(x, rest, p); }
        Filter(a, p) + Filter(b, p);
      }
    }
  }

  /** An element kept by the filter sits after the kept elements that precede it. */
  lemma FilterPosition<T(!new)>(xs: seq<T>, i: nat, p: T -> bool)
    requires i < |xs| && p(xs[i])
    ensures |Filter(xs[..i], p)| < |Filter(xs, p)|
    ensures Filter(xs, p)[|Filter(xs[..i], p)|] == xs[i]
  {
    var before, after := xs[..i], xs[i + 1..];
    assert xs == before + ([xs[i]] + after);
    FilterAppend(before, [xs[i]] + after, p);
    FilterCons(xs[i], after, p);
  }

  /** A kept element at i makes the filter of a longer prefix strictly longer. */
  lemma FilterPrefixGrows<T(!new)>(xs: seq<T>, i: nat, j: nat, p: T -> bool)
    requires i < j <= |xs| && p(xs[i])
    ensures |Filter(xs[..i], p)| < |Filter(xs[..j], p)|
  {
    assert xs[..j] == xs[..i] + xs[i..j];
    FilterAppend(xs[..i], xs[i..j], p);
    assert xs[i..j][0] == xs[i];
    assert xs[i] in Filter(xs[i..j], p);
  }

  /** The number of elements of xs that satisfy p. */
  function CountWhere<T(!new)>(xs: seq<T>, p: T -> bool): (n: nat)
    ensures n <= |xs|
    ensures n == |xs| <==> forall x :: x in xs ==> p(x)
    ensures n == 0 <==> forall x :: x in xs ==> !p(x)
    decreases |xs|
  {
    if xs == [] then 0
    else (if p(xs[0]) then 1 else 0) + CountWhere(xs[1..], p)
  }

  /** Counting is the length of the filtered list. */
  lemma {:induction false} CountIsFilterLength<T(!new)>(xs: seq<T>, p: T -> bool)
    ensures CountWhere(xs, p) == |Filter(xs, p)|
    decreases |xs|
  {
    if xs != [] {
      CountIsFilterLength(xs[1..], p);
    }
  }
}
