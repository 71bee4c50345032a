/** Python list slicing and slice assignment with non-negative bounds: bounds
    past the end are clamped, and assigning a list of another length to a slice
    makes the list grow or shrink. */
module PyList {

  /** `xs[:n]`. */
  function Take<T>(xs: seq<T>, n: nat): (r: seq<T>)
    ensures |r| == (if n <= |xs| then n else |xs|)
    ensures forall i :: 0 <= i < |r| ==> r[i] == xs[i]
  {
    if n <= |xs| then xs[..n] else xs
  }

  /** `xs[n:]`. */
  function Drop<T>(xs: seq<T>, n: nat): (r: seq<T>)
    ensures |r| == (if n <= |xs| then |xs| - n else 0)
    ensures Take(xs, n) + r == xs
  {
    if n <= |xs| then xs[n..] else []
  }

  /** `xs[-1]`. */
  function Last<T>(xs: seq<T>): T
    requires |xs| > 0
  {
    xs[|xs| - 1]
  }

  /** Start of the slice `xs[lo:hi]` once clamped to the list. */
  function Lo<T>(xs: seq<T>, lo: nat): nat
  {
    if lo <= |xs| then lo else |xs|
  }

  /** End of the slice `xs[lo:hi]` once clamped (never before its start). */
  function Hi<T>(xs: seq<T>, lo: nat, hi: nat): nat
  {
    var h := if hi <= |xs| then hi else |xs|;
    if h < Lo(xs, lo) then Lo(xs, lo) else h
  }

  /** The suffix from `i` is `xs[i]` followed by the suffix from `i + 1`. */
  lemma SuffixStep<T>(xs: seq<T>, i: nat)
    requires i < |xs|
    ensures xs[i..][0] == xs[i] && xs[i..][1..] == xs[i + 1..]
  {
  }

  /** The first `m` elements of the suffix from `i` are the slice from `i` to `i + m`. */
  lemma PrefixOfSuffix<T>(xs: seq<T>, i: nat, m: nat)
    requires i + m <= |xs|
    ensures xs[i..][..m] == xs[i..i + m]
  {
  }

  /** `xs[lo:hi] = ys`: the clamped slice is cut out and `ys` put in its place. */
  function SliceAssign<T>(xs: seq<T>, lo: nat, hi: nat, ys: seq<T>): (r: seq<T>)
    ensures |r| == |xs| - (Hi(xs, lo, hi) - Lo(xs, lo)) + |ys|
  {
    xs[..Lo(xs, lo)] + ys + xs[Hi(xs, lo, hi)..]
  }

  /** `xs[n:] = ys` keeps the first `n` elements and puts `ys` after them. */
  lemma ReplaceTail<T>(xs: seq<T>, n: nat, ys: seq<T>)
    ensures SliceAssign(xs, n, |xs|, ys) == Take(xs, n) + ys
  {
    assert Hi(xs, n, |xs|) == |xs|;
  }

  /** One element of a slice assignment that keeps the length. */
  lemma SliceAssignAt<T>(xs: seq<T>, lo: nat, hi: nat, ys: seq<T>, i: nat)
    requires lo <= hi <= |xs| && |ys| == hi - lo && i < |xs|
    ensures |SliceAssign(xs, lo, hi, ys)| == |xs|
    ensures SliceAssign(xs, lo, hi, ys)[i] == if lo <= i < hi then ys[i - lo] else xs[i]
  {
    var r := SliceAssign(xs, lo, hi, ys);
    if i < lo {
      assert r[..lo][i] == xs[..lo][i];
    } else if i < hi {
      assert r[lo..hi][i - lo] == ys[i - lo];
    } else {
      assert r[hi..][i - hi] == xs[hi..][i - hi];
    }
  }

  /** After `xs[lo:hi] = ys` with the slice inside the list, `ys` sits at
      `lo`, whatever its length. */
  lemma SliceAssignPlaced<T>(xs: seq<T>, lo: nat, hi: nat, ys: seq<T>)
    requires lo <= hi <= |xs|
    ensures |SliceAssign(xs, lo, hi, ys)| == |xs| - (hi - lo) + |ys|
    ensures forall i :: lo <= i < lo + |ys| ==> SliceAssign(xs, lo, hi, ys)[i] == ys[i - lo]
  {
    var r := SliceAssign(xs, lo, hi, ys);
    assert r == xs[..lo] + ys + xs[hi..];
    forall i | lo <= i < lo + |ys|
      ensures r[i] == ys[i - lo]
    {
      assert r[lo..lo + |ys|] == ys;
      assert r[lo..lo + |ys|][i - lo] == r[i];
    }
  }

  /** `xs[0:n] = ids` with as many elements, then `xs[k:k + 2] = ys` for a
      pair inside the list: the list changes length by `|ys| - 2` and `ys`
      sits at `k`. */
  lemma SliceAssignPair<T>(xs: seq<T>, n: nat, ids: seq<T>, k: nat, ys: seq<T>)
    requires |ids| == n <= k && k + 2 <= |xs|
    ensures var r := SliceAssign(SliceAssign(xs, 0, n, ids), k, k + 2, ys);
      |r| == |xs| - 2 + |ys| && forall i :: k <= i < k + |ys| ==> r[i] == ys[i - k]
  {
    var b := SliceAssign(xs, 0, n, ids);
    assert |b| == |xs|;
    SliceAssignPlaced(b, k, k + 2, ys);
  }

  /** A slice inside the list replaced by as many elements overwrites them in
      place: the length is kept and nothing outside the slice changes. */
  lemma SliceAssignInPlace<T>(xs: seq<T>, lo: nat, hi: nat, ys: seq<T>)
    requires lo <= hi <= |xs| && |ys| == hi - lo
    ensures |SliceAssign(xs, lo, hi, ys)| == |xs|
    ensures forall i :: 0 <= i < |xs| ==>
      SliceAssign(xs, lo, hi, ys)[i] == (if lo <= i < hi then ys[i - lo] else xs[i])
  {
    var r := SliceAssign(xs, lo, hi, ys);
    forall i | 0 <= i < |xs|
      ensures r[i] == (if lo <= i < hi then ys[i - lo] else xs[i])
    {
      if i < lo {
        assert r[..lo][i] == xs[..lo][i];
      } else if i < hi {
        assert r[lo..hi][i - lo] == ys[i - lo];
      } else {
        assert r[hi..][i - hi] == xs[hi..][i - hi];
      }
    }
  }
}
