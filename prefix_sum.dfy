/**
 The exclusive prefix sum of bindings/dbscan.py: the scan work unit, one
 left-to-right pass of it (a Kokkos `parallel_scan` read sequentially, with
 every call on its final pass), and the two-buffer and in-place entry points.
 */
module PrefixSum {
  import opened Seqs

  /** The exclusive prefix sum: position `i` holds the sum of the elements before `i`. */
  function ExclusiveScan(s: seq<int>): (r: seq<int>)
  {
    seq(|s|, i requires 0 <= i < |s| => Sum(s[..i]))
  }

  /**
   The scan starts at zero, each position adds the element before it, and the
   last position plus the last element is the total.
   */
  lemma ExclusiveScanRecurrence(s: seq<int>)
    ensures |ExclusiveScan(s)| == |s|
    ensures |s| > 0 ==> ExclusiveScan(s)[0] == 0
    ensures forall i :: 0 <= i < |s| - 1 ==> ExclusiveScan(s)[i + 1] == ExclusiveScan(s)[i] + s[i]
    ensures |s| > 0 ==> ExclusiveScan(s)[|s| - 1] + s[|s| - 1] == Sum(s)
  {
    forall i | 0 <= i < |s| - 1
      ensures ExclusiveScan(s)[i + 1] == ExclusiveScan(s)[i] + s[i]
    {
      assert s[..i + 1][..i] == s[..i];
    }
    if |s| > 0 {
      assert s[..|s|] == s;
    }
  }

  /** The scan of `[3, 1, 4, 1, 5]` is `[0, 3, 4, 8, 9]`, with total 14. */
  lemma ExclusiveScanExample()
    ensures ExclusiveScan([3, 1, 4, 1, 5]) == [0, 3, 4, 8, 9]
    ensures Sum([3, 1, 4, 1, 5]) == 14
  {
    var s := [3, 1, 4, 1, 5];
    assert s[..1][..0] == [] && Sum(s[..1]) == 3;
    assert s[..2][..1] == s[..1] && Sum(s[..2]) == 4;
    assert s[..3][..2] == s[..2] && Sum(s[..3]) == 8;
    assert s[..4][..3] == s[..3] && Sum(s[..4]) == 9;
    assert s[..4] == s[..|s| - 1] && Sum(s) == 14;
  }

  /**
   The scan work unit for index `i`: reads `src[i]` before writing `dst[i]`
   (so the two may be one array), writes the running total on the final pass,
   and returns the total advanced by the element read.
   */
  method ExclusiveScanWorkunit(i: nat, update: int, finalPass: bool, src: array<int>, dst: array<int>)
    returns (next: int)
    requires i < src.Length && i < dst.Length
    modifies dst
    ensures next == update + old(src[i])
    ensures dst[..] == if finalPass then old(dst[..])[i := update] else old(dst[..])
  {
    var inI := src[i];
    if finalPass {
      dst[i] := update;
    }
    next := update + inI;
  }

  /**
   A `parallel_scan` of the work unit over `[0, n)`, read as one sequential
   pass; returns the scan's final accumulator.
   */
  method ExclusiveScanPass(src: array<int>, dst: array<int>) returns (total: int)
    requires src.Length == dst.Length
    modifies dst
    ensures dst[..] == ExclusiveScan(old(src[..]))
    ensures total == Sum(old(src[..]))
    ensures src != dst ==> src[..] == old(src[..])
  {
    ghost var input := src[..];
    var n := src.Length;
    var update := 0;
    var i := 0;
    while i < n
      invariant 0 <= i <= n
      invariant update == Sum(input[..i])
      invariant forall k :: 0 <= k < i ==> dst[k] == Sum(input[..k])
      invariant forall k :: i <= k < n ==> src[k] == input[k]
      invariant src != dst ==> src[..] == input
    {
      assert input[..i + 1][..i] == input[..i];
      update := ExclusiveScanWorkunit(i, update, true, src, dst);
      i := i + 1;
    }
    assert input[..n] == input;
    total := update;
  }

  /**
   Exclusive prefix sum of `src` into `dst`; refuses (and changes nothing)
   when the two differ in length.
   */
  method ExclusivePrefixSumTwoViews(src: array<int>, dst: array<int>) returns (ok: bool)
    modifies dst
    ensures ok <==> src.Length == dst.Length
    ensures ok ==> dst[..] == ExclusiveScan(old(src[..]))
    ensures !ok ==> dst[..] == old(dst[..])
  {
    ok := src.Length == dst.Length;
    if !ok {
      return;
    }
    var _ := ExclusiveScanPass(src, dst);
  }

  /** In-place exclusive prefix sum: the same result as scanning into a separate buffer. */
  method ExclusivePrefixSum(v: array<int>)
    modifies v
    ensures v[..] == ExclusiveScan(old(v[..]))
  {
    var _ := ExclusivePrefixSumTwoViews(v, v);
  }
}
