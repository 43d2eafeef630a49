/** Python's slice semantics for `s[i:j]` with step 1, as used by the
    corrector on strings: a negative index counts from the end, and any
    index is then clamped into `0..len(s)`; an empty slice results when the
    clamped stop lies before the clamped start. */
module PySlice {

  /** The index Python actually uses for `i` in a slice of a sequence of length `n`. */
  function Clamp(i: int, n: nat): (k: nat)
    ensures k <= n
    ensures 0 <= i <= n ==> k == i
  {
    if i < 0 then (if i + n < 0 then 0 else i + n)
    else if i > n then n
    else i
  }

  /** `s[i:j]` */
  function Slice<T>(s: seq<T>, i: int, j: int): (r: seq<T>)
    ensures |r| <= |s|
    ensures 0 <= i <= j ==> |r| <= j - i
    ensures 0 <= i <= j <= |s| ==> r == s[i..j]
  {
    var lo, hi := Clamp(i, |s|), Clamp(j, |s|);
    if hi <= lo then [] else s[lo..hi]
  }

  /** `s[:j]`: the start is 0, so only the stop needs clamping. */
  function Prefix<T>(s: seq<T>, j: int): (r: seq<T>)
    ensures 0 <= j <= |s| ==> r == s[..j]
  {
    s[..Clamp(j, |s|)]
  }

  /** `s[i:]`: the stop is the length, so only the start needs clamping. */
  function Suffix<T>(s: seq<T>, i: int): (r: seq<T>)
    ensures 0 <= i <= |s| ==> r == s[i..]
  {
    s[Clamp(i, |s|)..]
  }

  /** The two shorthands are the general slice with its default bounds. */
  lemma PrefixSuffixAreSlices<T>(s: seq<T>, i: int, j: int)
    ensures Prefix(s, j) == Slice(s, 0, j)
    ensures Suffix(s, i) == Slice(s, i, |s|)
  {
    if Clamp(i, |s|) == |s| {
      assert s[|s|..] == [];
    }
  }

  /** A slice that starts at or beyond the end of the sequence is empty,
      and one that runs past the end stops at the end. */
  lemma SliceBeyondEnd<T>(s: seq<T>, i: nat, j: int)
    requires i <= j
    ensures |s| <= i ==> Slice(s, i, j) == []
    ensures i <= |s| <= j ==> Slice(s, i, j) == s[i..]
  {
  }
}
