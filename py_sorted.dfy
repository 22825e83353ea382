/** Python's `sorted(set(xs))` over strings. Python orders strings by comparing
    code points from the left, a proper prefix coming first. */
module PySorted {
  import opened PyCommon

  /** Python's `a < b` on `str`. */
  predicate LexLess(a: string, b: string)
  {
    if a == [] then b != []
    else if b == [] then false
    else if a[0] != b[0] then a[0] < b[0]
    else LexLess(a[1..], b[1..])
  }

  lemma {:induction false} LexLessIrreflexive(a: string)
    ensures !LexLess(a, a)
  {
    if a != [] {
      LexLessIrreflexive(a[1..]);
    }
  }

  lemma {:induction false} LexLessTransitive(a: string, b: string, c: string)
    requires LexLess(a, b) && LexLess(b, c)
    ensures LexLess(a, c)
  {
    if a != [] && a[0] == b[0] && b[0] == c[0] {
      LexLessTransitive(a[1..], b[1..], c[1..]);
    }
  }

  lemma {:induction false} LexLessTotal(a: string, b: string)
    ensures a == b || LexLess(a, b) || LexLess(b, a)
  {
    if a != [] && b != [] && a[0] == b[0] {
      LexLessTotal(a[1..], b[1..]);
      if a[1..] == b[1..] {
        assert a == [a[0]] + a[1..] && b == [b[0]] + b[1..];
      }
    }
  }

  predicate StrictlySorted(s: seq<string>)
  {
    forall i, j :: 0 <= i < j < |s| ==> LexLess(s[i], s[j])
  }

  /** A strictly sorted list holds each string at most once. */
  lemma StrictlySortedNoDuplicates(s: seq<string>)
    requires StrictlySorted(s)
    ensures NoDuplicates(s)
  {
    forall i, j | 0 <= i < j < |s| ensures s[i] != s[j] {
      LexLessIrreflexive(s[i]);
    }
  }

  /** Adds `x` to a strictly sorted list unless it is already there. */
  function Insert(s: seq<string>, x: string): (r: seq<string>)
    requires StrictlySorted(s)
    ensures StrictlySorted(r)
    ensures forall y :: y in r <==> y in s || y == x
  {
    if s == [] then [x]
    else if s[0] == x then s
    else if LexLess(x, s[0]) then
      LexLessAllAbove(s, x);
      [x] + s
    else
      LexLessTotal(x, s[0]);
      var t := Insert(s[1..], x);
      assert forall y :: y in t ==> LexLess(s[0], y);
      [s[0]] + t
  }

  lemma LexLessAllAbove(s: seq<string>, x: string)
    requires StrictlySorted(s) && s != [] && LexLess(x, s[0])
    ensures forall j :: 0 <= j < |s| ==> LexLess(x, s[j])
  {
    forall j | 0 < j < |s| ensures LexLess(x, s[j]) {
      LexLessTransitive(x, s[0], s[j]);
    }
  }

  /** `sorted(set(xs))`: the strings of `xs`, each once, in ascending order. */
  function SortedSet(xs: seq<string>): (r: seq<string>)
    ensures StrictlySorted(r)
    ensures forall y :: y in r <==> y in xs
  {
    if xs == [] then []
    else
      var r := Insert(SortedSet(xs[..|xs| - 1]), xs[|xs| - 1]);
      assert xs == xs[..|xs| - 1] + [xs[|xs| - 1]];
      r
  }

  /** There is only one strictly sorted list with a given set of elements, so
      `SortedSet(xs)` is exactly what `sorted(set(xs))` returns. */
  lemma {:induction false} SortedUnique(a: seq<string>, b: seq<string>)
    requires StrictlySorted(a) && StrictlySorted(b)
    requires forall y :: y in a <==> y in b
    ensures a == b
    decreases |a|
  {
    assert a == [] <==> b == [] by {
      if a != [] { assert a[0] in b; }
      if b != [] { assert b[0] in a; }
    }
    if a != [] {
      assert a[0] in b && b[0] in a;
      var k :| 0 <= k < |b| && b[k] == a[0];
      var m :| 0 <= m < |a| && a[m] == b[0];
      if k > 0 {
        if m > 0 {
          LexLessTransitive(a[0], b[0], a[0]);
        }
        LexLessIrreflexive(a[0]);
        assert false;
      }
      assert a[0] == b[0];
      forall y ensures y in a[1..] <==> y in b[1..] {
        if y in a[1..] {
          var i :| 1 <= i < |a| && a[i] == y;
          LexLessIrreflexive(y);
          assert y in b && y != b[0];
          var j :| 0 <= j < |b| && b[j] == y;
          assert b[1..][j - 1] == y;
        }
        if y in b[1..] {
          var j :| 1 <= j < |b| && b[j] == y;
          LexLessIrreflexive(y);
          assert y in a && y != a[0];
          var i :| 0 <= i < |a| && a[i] == y;
          assert a[1..][i - 1] == y;
        }
      }
      SortedUnique(a[1..], b[1..]);
      assert a == [a[0]] + a[1..] && b == [b[0]] + b[1..];
    }
  }
}
