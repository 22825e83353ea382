/** Python string operations used by the forms: `str.strip()` and `sep.join(...)`,
    with `str.split` as the inverse that `join` is checked against. */
module PyText {

  /** Characters for which Python's `str.isspace()` holds. */
  predicate IsSpace(c: char)
  {
    || c == ' '
    || ('\t' <= c <= '\r')
    || ('\U{1C}' <= c <= '\U{1F}')
    || c == '\U{85}' || c == '\U{A0}' || c == '\U{1680}'
    || ('\U{2000}' <= c <= '\U{200A}')
    || c == '\U{2028}' || c == '\U{2029}' || c == '\U{202F}' || c == '\U{205F}' || c == '\U{3000}'
  }

  predicate AllSpace(s: string)
  {
    forall i :: 0 <= i < |s| ==> IsSpace(s[i])
  }

  /** Drops leading whitespace. */
  function StripLeft(s: string): string
    decreases |s|
  {
    if s != [] && IsSpace(s[0]) then StripLeft(s[1..]) else s
  }

  /** Drops trailing whitespace. */
  function StripRight(s: string): string
    decreases |s|
  {
    if s != [] && IsSpace(s[|s| - 1]) then StripRight(s[..|s| - 1]) else s
  }

  /** StripLeft removes exactly the longest all-whitespace prefix. */
  lemma {:induction false} StripLeftRemovesSpacePrefix(s: string)
    ensures |StripLeft(s)| <= |s| && StripLeft(s) == s[|s| - |StripLeft(s)|..]
    ensures AllSpace(s[..|s| - |StripLeft(s)|])
    ensures StripLeft(s) == [] || !IsSpace(StripLeft(s)[0])
    decreases |s|
  {
    if s != [] && IsSpace(s[0]) {
      StripLeftRemovesSpacePrefix(s[1..]);
      var k := |s| - |StripLeft(s)|;
      assert s[..k] == [s[0]] + s[1..][..k - 1];
    }
  }

  /** StripRight removes exactly the longest all-whitespace suffix. */
  lemma {:induction false} StripRightRemovesSpaceSuffix(s: string)
    ensures |StripRight(s)| <= |s| && StripRight(s) == s[..|StripRight(s)|]
    ensures AllSpace(s[|StripRight(s)|..])
    ensures StripRight(s) == [] || !IsSpace(StripRight(s)[|StripRight(s)| - 1])
    decreases |s|
  {
    if s != [] && IsSpace(s[|s| - 1]) {
      StripRightRemovesSpaceSuffix(s[..|s| - 1]);
      var k := |StripRight(s)|;
      assert s[k..] == s[..|s| - 1][k..] + [s[|s| - 1]];
    }
  }

  /** Python's `s.strip()`. */
  function Strip(s: string): string
  {
    StripRight(StripLeft(s))
  }

  /** The stripped text is empty exactly when `s` is all whitespace, and otherwise
      neither starts nor ends with whitespace. */
  lemma StripEnds(s: string)
    ensures Strip(s) == [] <==> AllSpace(s)
    ensures Strip(s) != [] ==> !IsSpace(Strip(s)[0]) && !IsSpace(Strip(s)[|Strip(s)| - 1])
  {
    StripLeftRemovesSpacePrefix(s);
    StripRightRemovesSpaceSuffix(StripLeft(s));
  }

  lemma StripIdempotent(s: string)
    ensures Strip(Strip(s)) == Strip(s)
  {
    StripEnds(s);
    var r := Strip(s);
    if r != [] {
      assert StripLeft(r) == r;
      assert StripRight(r) == r;
    }
  }

  lemma {:induction false} StripLeftSnoc(s: string, c: char)
    requires IsSpace(c)
    ensures StripLeft(s + [c]) == if AllSpace(s) then [] else StripLeft(s) + [c]
    decreases |s|
  {
    if s == [] {
      assert StripLeft([c]) == StripLeft([]);
    } else if IsSpace(s[0]) {
      assert (s + [c])[1..] == s[1..] + [c];
      StripLeftSnoc(s[1..], c);
      assert AllSpace(s) <==> AllSpace(s[1..]) by {
        if AllSpace(s[1..]) {
          forall i | 0 <= i < |s| ensures IsSpace(s[i]) {
            if i > 0 { assert s[i] == s[1..][i - 1]; }
          }
        }
      }
    } else {
      assert !AllSpace(s);
    }
  }

  /** A trailing whitespace character never changes the stripped text; this is why the
      newline that a Tk text box appends to its contents does not reach the stored notes. */
  lemma StripTrailingSpace(s: string, c: char)
    requires IsSpace(c)
    ensures Strip(s + [c]) == Strip(s)
  {
    StripLeftSnoc(s, c);
    StripEnds(s);
    if !AllSpace(s) {
      var t := StripLeft(s);
      assert (t + [c])[..|t|] == t;
    }
  }

  /** Python's `sep.join(xs)`. */
  function Join(sep: string, xs: seq<string>): string
  {
    if xs == [] then ""
    else if |xs| == 1 then xs[0]
    else xs[0] + sep + Join(sep, xs[1..])
  }

  /** Python's `s.split(c)` for a one-character separator: never empty. */
  function Split(s: string, c: char): (r: seq<string>)
    ensures |r| >= 1
  {
    if s == [] then [""]
    else if s[0] == c then [""] + Split(s[1..], c)
    else
      var rest := Split(s[1..], c);
      [[s[0]] + rest[0]] + rest[1..]
  }

  lemma {:induction false} SplitWithoutSeparator(x: string, c: char)
    requires c !in x
    ensures Split(x, c) == [x]
  {
    if x != [] {
      SplitWithoutSeparator(x[1..], c);
      assert [x[0]] + x[1..] == x;
    }
  }

  lemma {:induction false} SplitAtSeparator(x: string, rest: string, c: char)
    requires c !in x
    ensures Split(x + [c] + rest, c) == [x] + Split(rest, c)
  {
    var s := x + [c] + rest;
    if x == [] {
      assert s[0] == c && s[1..] == rest;
    } else {
      assert s[0] == x[0] && s[1..] == x[1..] + [c] + rest;
      SplitAtSeparator(x[1..], rest, c);
      assert [x[0]] + x[1..] == x;
    }
  }

  /** Joining lines that hold no separator can be split back into the same lines. */
  lemma {:induction false} SplitJoin(xs: seq<string>, c: char)
    requires xs != []
    requires forall i :: 0 <= i < |xs| ==> c !in xs[i]
    ensures Split(Join([c], xs), c) == xs
  {
    if |xs| == 1 {
      SplitWithoutSeparator(xs[0], c);
    } else {
      SplitJoin(xs[1..], c);
      SplitAtSeparator(xs[0], Join([c], xs[1..]), c);
      assert [xs[0]] + xs[1..] == xs;
    }
  }
}
