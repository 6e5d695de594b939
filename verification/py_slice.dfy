/** Python's slice `s[start:stop]` with step 1.

    Python normalises each bound against the length `n` of the sequence: a
    negative bound counts from the end (`n + i`) and is then raised to 0 if
    still negative, a bound past the end is lowered to `n`. The slice holds
    the elements between the two normalised bounds, or nothing when the
    stop bound is not after the start bound. */
module PySlice {

  /** One normalised slice bound for a sequence of length `n`: an index
      into `0..n`, counted from the end when `i` is negative. */
  function Bound(i: int, n: nat): (r: nat)
    ensures r <= n
    ensures 0 <= i ==> r == Min(i, n)
    ensures i < 0 ==> r == Max(0, n + i)
  {
    if i < 0 then (if i + n < 0 then 0 else i + n)
    else if i > n then n
    else i
  }

  function Slice<T>(s: seq<T>, start: int, stop: int): (r: seq<T>)
    ensures |r| <= |s|
    ensures forall x :: x in r ==> x in s
  {
    var a := Bound(start, |s|);
    var b := Bound(stop, |s|);
    if a < b then s[a..b] else []
  }

  function Min(a: int, b: int): int {
    if a < b then a else b
  }

  function Max(a: int, b: int): int {
    if a < b then b else a
  }

  /** With non-negative bounds a Python slice is the ordinary sub-sequence,
      clamped to the end of `s`, and empty when `stop <= start`. */
  lemma SliceNonNegative<T>(s: seq<T>, start: int, stop: int)
    requires 0 <= start && 0 <= stop
    ensures var a := Min(start, |s|);
            Slice(s, start, stop) == s[a..Max(a, Min(stop, |s|))]
    ensures |Slice(s, start, stop)| == Max(0, Min(stop, |s|) - start)
  {
  }

  /** With two negative bounds the slice is the one taken at `|s| + start`
      and `|s| + stop`, each raised to 0 when it falls before the start. */
  lemma SliceNegative<T>(s: seq<T>, start: int, stop: int)
    requires start < 0 && stop < 0
    ensures Slice(s, start, stop) == Slice(s, Max(0, |s| + start), Max(0, |s| + stop))
    ensures |Slice(s, start, stop)| == Max(0, Max(0, |s| + stop) - Max(0, |s| + start))
  {
  }

  /** A slice whose stop bound is 0 is always empty: nothing lies before
      index 0, whatever the start bound. */
  lemma SliceToZeroIsEmpty<T>(s: seq<T>, start: int)
    ensures Slice(s, start, 0) == []
  {
  }
}
