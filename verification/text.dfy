/**
 * The JavaScript string operations the admin client relies on, stated over
 * seq<char>: the whitespace class of regular expressions and of trim(),
 * toLowerCase() on ASCII letters, substring search, split() on a set of
 * single characters or on a multi-character separator, join(), decimal
 * formatting with padStart(), and the default code-point order of sort().
 */
module Text {

  /** The characters matched by \s and removed by String.prototype.trim. */
  predicate IsSpace(c: char)
  {
    var n := c as int;
    n == 0x20 || (0x09 <= n <= 0x0D) || n == 0xA0 || n == 0x1680 ||
    (0x2000 <= n <= 0x200A) || n == 0x2028 || n == 0x2029 || n == 0x202F ||
    n == 0x205F || n == 0x3000 || n == 0xFEFF
  }

  predicate AllSpace(s: string)
  {
    forall k :: 0 <= k < |s| ==> IsSpace(s[k])
  }

  predicate NoSpace(s: string)
  {
    forall k :: 0 <= k < |s| ==> !IsSpace(s[k])
  }

  function TrimStart(s: string): (r: string)
    ensures |r| <= |s| && r == s[|s| - |r|..]
    ensures r != [] ==> !IsSpace(r[0])
    ensures AllSpace(s[..|s| - |r|])
    decreases |s|
  {
    if s != [] && IsSpace(s[0]) then
      var r := TrimStart(s[1..]);
      var n := |s| - |r|;
      assert s[1..][..n - 1] == s[1..n];
      forall k | 0 <= k < n
        ensures IsSpace(s[..n][k])
      {
        if k > 0 {
          assert s[..n][k] == s[1..][..n - 1][k - 1];
        }
      }
      r
    else s
  }

  function TrimEnd(s: string): (r: string)
    ensures |r| <= |s| && r == s[..|r|]
    ensures r != [] ==> !IsSpace(r[|r| - 1])
    ensures AllSpace(s[|r|..])
    decreases |s|
  {
    if s != [] && IsSpace(s[|s| - 1]) then
      var init := s[..|s| - 1];
      var r := TrimEnd(init);
      var n := |r|;
      forall k | 0 <= k < |s| - n
        ensures IsSpace(s[n..][k])
      {
        if n + k < |s| - 1 {
          assert s[n..][k] == init[n..][k];
        }
      }
      r
    else s
  }

  /** s.trim(): the slice of s between its leading and trailing whitespace. */
  function Trim(s: string): (r: string)
    ensures |r| <= |s|
    ensures r != [] ==> !IsSpace(r[0]) && !IsSpace(r[|r| - 1])
    ensures r == [] <==> AllSpace(s)
  {
    var t := TrimStart(s);
    assert t != [] ==> t[0] == s[|s| - |t|];
    TrimEnd(t)
  }

  /** A string with no whitespace at either end is its own trim. */
  lemma TrimOfTrimmed(s: string)
    requires s != [] ==> !IsSpace(s[0]) && !IsSpace(s[|s| - 1])
    ensures Trim(s) == s
  {
  }

  /** Trimming twice is trimming once. */
  lemma TrimIdempotent(s: string)
    ensures Trim(Trim(s)) == Trim(s)
  {
    TrimOfTrimmed(Trim(s));
  }

  /** The lower-case form of an ASCII capital letter; every other character is kept. */
  function LowerChar(c: char): char
  {
    if 'A' <= c <= 'Z' then (c as int + 32) as char else c
  }

  /** s.toLowerCase() on ASCII letters. */
  function ToLower(s: string): (r: string)
    ensures |r| == |s|
    ensures forall k :: 0 <= k < |r| ==> !('A' <= r[k] <= 'Z')
  {
    seq(|s|, k requires 0 <= k < |s| => LowerChar(s[k]))
  }

  /** Lower-casing is idempotent, so comparing lower-cased strings is stable. */
  lemma ToLowerIdempotent(s: string)
    ensures ToLower(ToLower(s)) == ToLower(s)
  {
  }

  predicate StartsWith(s: string, prefix: string)
  {
    |prefix| <= |s| && s[..|prefix|] == prefix
  }

  /** t occurs in s starting at position i. */
  predicate OccursAt(s: string, t: string, i: int)
  {
    0 <= i && i + |t| <= |s| && s[i..i + |t|] == t
  }

  /** s.includes(t): t occurs in s at some position. */
  predicate Contains(s: string, t: string)
  {
    exists i :: 0 <= i <= |s| - |t| && OccursAt(s, t, i)
  }

  /** Every string contains the empty string, and a string placed between two others is contained. */
  lemma ContainsInside(a: string, t: string, b: string)
    ensures Contains(a + t + b, t)
    ensures Contains(a, [])
  {
    assert OccursAt(a + t + b, t, |a|);
    assert OccursAt(a, [], 0);
  }

  /** The number of characters of s that belong to seps. */
  function CountIn(s: string, seps: set<char>): (n: nat)
    ensures n <= |s|
    decreases |s|
  {
    if s == [] then 0 else (if s[0] in seps then 1 else 0) + CountIn(s[1..], seps)
  }

  /**
   * s.split(sep) where sep matches exactly the single characters of seps
   * ('\n', or the regular expression /\t|,/): the pieces between separators,
   * one more than there are separators, none of them holding a separator.
   */
  function Split(s: string, seps: set<char>): (r: seq<string>)
    ensures |r| == CountIn(s, seps) + 1
    ensures forall i, k :: 0 <= i < |r| && 0 <= k < |r[i]| ==> r[i][k] !in seps
    decreases |s|
  {
    if s == [] then [[]]
    else if s[0] in seps then [[]] + Split(s[1..], seps)
    else
      var rest := Split(s[1..], seps);
      [[s[0]] + rest[0]] + rest[1..]
  }

  /** pieces.join(sep). */
  function Join(pieces: seq<string>, sep: char): string
    decreases |pieces|
  {
    if pieces == [] then []
    else if |pieces| == 1 then pieces[0]
    else pieces[0] + [sep] + Join(pieces[1..], sep)
  }

  lemma JoinConsChar(c: char, first: string, rest: seq<string>, sep: char)
    ensures Join([[c] + first] + rest, sep) == [c] + Join([first] + rest, sep)
  {
    var a := [[c] + first] + rest;
    var b := [first] + rest;
    assert a[1..] == rest && b[1..] == rest;
  }

  /** Splitting on one character and joining with it gives the string back. */
  lemma {:induction false} JoinSplit(s: string, sep: char)
    ensures Join(Split(s, {sep}), sep) == s
    decreases |s|
  {
    if s != [] {
      var rest := Split(s[1..], {sep});
      JoinSplit(s[1..], sep);
      if s[0] == sep {
        assert Split(s, {sep}) == [[]] + rest;
        assert ([[]] + rest)[1..] == rest;
        assert s == [sep] + s[1..];
      } else {
        assert Split(s, {sep}) == [[s[0]] + rest[0]] + rest[1..];
        JoinConsChar(s[0], rest[0], rest[1..], sep);
        assert [rest[0]] + rest[1..] == rest;
        assert s == [s[0]] + s[1..];
      }
    }
  }

  /** A leading piece free of the separator comes off whole at the first separator. */
  lemma {:induction false} SplitFirstPiece(a: string, b: string, sep: char)
    requires forall k :: 0 <= k < |a| ==> a[k] != sep
    ensures Split(a + [sep] + b, {sep}) == [a] + Split(b, {sep})
    decreases |a|
  {
    var s := a + [sep] + b;
    if a == [] {
      assert s == [sep] + b && s[1..] == b;
    } else {
      assert s[0] == a[0] && s[1..] == a[1..] + [sep] + b;
      SplitFirstPiece(a[1..], b, sep);
      assert [a[0]] + a[1..] == a;
    }
  }

  /** sep occurs in s at no position. */
  predicate NoOccurrence(s: string, sep: string)
  {
    forall i :: 0 <= i <= |s| - |sep| ==> !OccursAt(s, sep, i)
  }

  /**
   * s.split(sep) for a non-empty string separator: occurrences are found from
   * left to right, and a found occurrence is skipped as a whole, so two
   * occurrences never overlap.
   */
  function SplitAt(s: string, sep: string): (r: seq<string>)
    requires sep != []
    ensures |r| >= 1
    decreases |s|
  {
    if |s| < |sep| then [s]
    else if s[..|sep|] == sep then [[]] + SplitAt(s[|sep|..], sep)
    else
      var rest := SplitAt(s[1..], sep);
      [[s[0]] + rest[0]] + rest[1..]
  }

  /** A string in which the separator never occurs is not split. */
  lemma {:induction false} SplitAtNoOccurrence(s: string, sep: string)
    requires sep != [] && NoOccurrence(s, sep)
    ensures SplitAt(s, sep) == [s]
    decreases |s|
  {
    if |s| >= |sep| {
      assert !OccursAt(s, sep, 0);
      var t := s[1..];
      forall i | 0 <= i <= |t| - |sep|
        ensures !OccursAt(t, sep, i)
      {
        assert t[i..i + |sep|] == s[i + 1..i + 1 + |sep|];
        assert !OccursAt(s, sep, i + 1);
      }
      SplitAtNoOccurrence(t, sep);
      assert [s[0]] + t == s;
    }
  }

  /** A leading separator followed by a piece without separators splits into an empty piece and that piece. */
  lemma SplitAtLeading(sep: string, k: string)
    requires sep != [] && NoOccurrence(k, sep)
    ensures SplitAt(sep + k, sep) == [[], k]
  {
    var s := sep + k;
    assert s[..|sep|] == sep;
    assert s[|sep|..] == k;
    SplitAtNoOccurrence(k, sep);
  }

  function DigitChar(d: nat): (c: char)
    requires d < 10
    ensures '0' <= c <= '9'
  {
    ('0' as int + d) as char
  }

  predicate IsDigit(c: char)
  {
    '0' <= c <= '9'
  }

  predicate AllDigits(s: string)
  {
    forall k :: 0 <= k < |s| ==> IsDigit(s[k])
  }

  /** n.toString() for a non-negative integer: its decimal digits, without leading zeros. */
  function Decimal(n: nat): (r: string)
    ensures 1 <= |r| && AllDigits(r)
    ensures |r| == 1 <==> n < 10
    decreases n
  {
    if n < 10 then [DigitChar(n)] else Decimal(n / 10) + [DigitChar(n % 10)]
  }

  /** The number a string of decimal digits denotes (leading zeros allowed). */
  function DecimalValue(s: string): nat
    requires AllDigits(s)
    decreases |s|
  {
    if s == [] then 0
    else DecimalValue(s[..|s| - 1]) * 10 + (s[|s| - 1] as int - '0' as int)
  }

  lemma {:induction false} DecimalRoundTrip(n: nat)
    ensures DecimalValue(Decimal(n)) == n
    decreases n
  {
    if n >= 10 {
      DecimalRoundTrip(n / 10);
      var r := Decimal(n);
      assert r[..|r| - 1] == Decimal(n / 10);
    }
  }

  /** Leading zeros do not change the value of a digit string. */
  lemma {:induction false} LeadingZero(s: string)
    requires AllDigits(s)
    ensures AllDigits("0" + s) && DecimalValue("0" + s) == DecimalValue(s)
    decreases |s|
  {
    if s != [] {
      var z := "0" + s;
      assert z[..|z| - 1] == "0" + s[..|s| - 1];
      LeadingZero(s[..|s| - 1]);
    }
  }

  /** s.padStart(2, '0'). */
  function PadStart2(s: string): (r: string)
    ensures |r| == if |s| >= 2 then |s| else 2
    ensures r[|r| - |s|..] == s
    ensures forall k :: 0 <= k < |r| - |s| ==> r[k] == '0'
  {
    if |s| >= 2 then s else if |s| == 1 then "0" + s else "00"
  }

  lemma PadStart2Value(s: string)
    requires AllDigits(s)
    ensures AllDigits(PadStart2(s)) && DecimalValue(PadStart2(s)) == DecimalValue(s)
  {
    if |s| == 1 {
      LeadingZero(s);
    } else if s == [] {
      LeadingZero("0");
    }
  }

  /** The order of Array.prototype.sort with no comparator: character by character, a prefix first. */
  predicate LexLe(a: string, b: string)
    decreases |a|
  {
    if a == [] then true
    else if b == [] then false
    else if a[0] != b[0] then a[0] < b[0]
    else LexLe(a[1..], b[1..])
  }

  lemma {:induction false} LexLeTotal(a: string, b: string)
    ensures LexLe(a, b) || LexLe(b, a)
    decreases |a|
  {
    if a != [] && b != [] && a[0] == b[0] {
      LexLeTotal(a[1..], b[1..]);
    }
  }

  lemma {:induction false} LexLeTransitive(a: string, b: string, c: string)
    requires LexLe(a, b) && LexLe(b, c)
    ensures LexLe(a, c)
    decreases |a|
  {
    if a != [] && b != [] && c != [] && a[0] == b[0] && b[0] == c[0] {
      LexLeTransitive(a[1..], b[1..], c[1..]);
    }
  }

  predicate Sorted(s: seq<string>)
  {
    forall i, j :: 0 <= i < j < |s| ==> LexLe(s[i], s[j])
  }

  /** A head no greater than any element of a sorted tail keeps the list sorted. */
  lemma SortedCons(h: string, t: seq<string>)
    requires Sorted(t)
    requires forall j :: 0 <= j < |t| ==> LexLe(h, t[j])
    ensures Sorted([h] + t)
  {
    var r := [h] + t;
    forall i, j | 0 <= i < j < |r|
      ensures LexLe(r[i], r[j])
    {
      assert r[j] == t[j - 1];
      if i > 0 {
        assert r[i] == t[i - 1];
      }
    }
  }

  /** Inserts x into a sorted list, before the first element it does not exceed. */
  function Insert(x: string, s: seq<string>): (r: seq<string>)
    requires Sorted(s)
    ensures Sorted(r)
    ensures multiset(r) == multiset(s) + multiset{x}
    decreases |s|
  {
    if s == [] then [x]
    else if LexLe(x, s[0]) then
      assert forall j :: 0 <= j < |s| ==> LexLe(x, s[j]) by {
        forall j | 0 <= j < |s| ensures LexLe(x, s[j]) {
          if j > 0 { LexLeTransitive(x, s[0], s[j]); }
        }
      }
      SortedCons(x, s);
      [x] + s
    else
      var h, rest := s[0], s[1..];
      var t := Insert(x, rest);
      assert s == [h] + rest;
      LexLeTotal(x, h);
      assert forall j :: 0 <= j < |t| ==> LexLe(h, t[j]) by {
        forall j | 0 <= j < |t| ensures LexLe(h, t[j]) {
          assert t[j] in multiset(t);
          if t[j] != x {
            assert t[j] in multiset(rest);
            var k :| 0 <= k < |rest| && rest[k] == t[j];
            assert s[k + 1] == t[j];
          }
        }
      }
      SortedCons(h, t);
      [h] + t
  }

  /** [...xs].sort(): the elements of xs in ascending order. */
  function SortStrings(xs: seq<string>): (r: seq<string>)
    ensures Sorted(r)
    ensures multiset(r) == multiset(xs)
    decreases |xs|
  {
    if xs == [] then []
    else
      assert xs == [xs[0]] + xs[1..];
      Insert(xs[0], SortStrings(xs[1..]))
  }

  /**
   * if (value && !names.includes(value)) [...names, value].sort(): a new
   * non-empty name joins the list, which is then sorted; otherwise the list
   * is left as it is.
   */
  function AddSorted(names: seq<string>, value: string): (r: seq<string>)
    ensures value != [] && value !in names ==> Sorted(r) && multiset(r) == multiset(names) + multiset{value}
    ensures value == [] || value in names ==> r == names
  {
    if value != [] && value !in names then SortStrings(names + [value]) else names
  }

  /** A name added to a list that lacked it occurs in the result exactly once. */
  lemma AddSortedOnce(names: seq<string>, value: string)
    requires value != [] && value !in names
    ensures value in AddSorted(names, value)
    ensures multiset(AddSorted(names, value))[value] == 1
  {
    var r := AddSorted(names, value);
    assert multiset(names)[value] == 0;
    assert value in multiset(r);
  }
}
