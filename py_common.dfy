/** Python list behaviour that the recorder forms rely on, stated over Dafny sequences. */
module PyCommon {

  datatype Option<+T> = None | Some(value: T)

  /** The one exception the modelled code can raise: a list or string index out of range. */
  datatype PyError = IndexError

  /** A Python computation that either returns a value or raises. */
  datatype Result<+T> = Ok(value: T) | Err(error: PyError)

  function Min(a: int, b: int): int { if a <= b then a else b }

  function Max(a: int, b: int): int { if a <= b then b else a }

  /** Python's `s[k:]`: a negative start counts back from the end; a start
      outside the sequence is clipped to it. So `s[-0:]` is all of `s`. */
  function SliceFrom<T>(s: seq<T>, k: int): seq<T>
  {
    if k < 0 then
      if |s| + k < 0 then s else s[|s| + k..]
    else if k <= |s| then s[k..]
    else []
  }

  /** `s[k:]` is a suffix of `s`: the last `-k` items for negative `k`, and all
      but the first `k` otherwise. */
  lemma SliceFromSuffix<T>(s: seq<T>, k: int)
    ensures |SliceFrom(s, k)| <= |s| && SliceFrom(s, k) == s[|s| - |SliceFrom(s, k)|..]
    ensures k < 0 ==> |SliceFrom(s, k)| == Min(-k, |s|)
    ensures k >= 0 ==> |SliceFrom(s, k)| == Max(|s| - k, 0)
  {
  }

  /** Python's `s[:k]` for a non-negative `k`: the first `k` items, or all of a shorter `s`. */
  function SliceTo<T>(s: seq<T>, k: nat): seq<T>
  {
    if k <= |s| then s[..k] else s
  }

  /** Python's `s[::-1]`: item `i` is item `i` counted back from the end. */
  function Reversed<T>(s: seq<T>): seq<T>
  {
    seq(|s|, i requires 0 <= i < |s| => s[|s| - 1 - i])
  }

  predicate NoDuplicates<T(==)>(s: seq<T>)
  {
    forall i, j :: 0 <= i < j < |s| ==> s[i] != s[j]
  }
}
