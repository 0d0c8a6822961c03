/**
 Sums and counts over integer sequences: the vocabulary shared by the
 label-resolution stage and the cluster-extraction stage.
 */
module Seqs {

  /** The sum of the elements of `s`, accumulated left to right. */
  function Sum(s: seq<int>): int
  {
    if s == [] then 0 else Sum(s[..|s| - 1]) + s[|s| - 1]
  }

  /** The number of positions of `s` that hold `x`. */
  function Count(s: seq<int>, x: int): (c: nat)
    ensures c <= |s|
  {
    if s == [] then 0 else Count(s[..|s| - 1], x) + (if s[|s| - 1] == x then 1 else 0)
  }

  /** The number of positions of `s` whose value lies in `[0, n)`. */
  function CountInRange(s: seq<int>, n: nat): (c: nat)
    ensures c <= |s|
  {
    if s == [] then 0 else CountInRange(s[..|s| - 1], n) + (if 0 <= s[|s| - 1] < n then 1 else 0)
  }

  /** Population of every value in `[0, n)`: position `r` counts the entries equal to `r`. */
  function Histogram(s: seq<int>, n: nat): (h: seq<int>)
  {
    seq(n, r requires 0 <= r < n => Count(s, r))
  }

  lemma {:induction false} SumAppend(s: seq<int>, t: seq<int>)
    ensures Sum(s + t) == Sum(s) + Sum(t)
    decreases |t|
  {
    if t != [] {
      var t' := t[..|t| - 1];
      assert (s + t)[..|s + t| - 1] == s + t';
      SumAppend(s, t');
    } else {
      assert s + t == s;
    }
  }

  /** Raising one element by `d` raises the sum by `d`. */
  lemma {:induction false} SumUpdate(s: seq<int>, i: nat, d: int)
    requires i < |s|
    ensures Sum(s[i := s[i] + d]) == Sum(s) + d
    decreases |s|
  {
    var s' := s[i := s[i] + d];
    var last := |s| - 1;
    assert s'[..last] == if i < last then s[..last][i := s[i] + d] else s[..last];
    if i < last {
      SumUpdate(s[..last], i, d);
    }
  }

  /** A sum of non-negative numbers is non-negative. */
  lemma {:induction false} SumNonNegative(s: seq<int>)
    requires forall k :: 0 <= k < |s| ==> s[k] >= 0
    ensures Sum(s) >= 0
    decreases |s|
  {
    if s != [] {
      SumNonNegative(s[..|s| - 1]);
    }
  }

  lemma {:induction false} CountAppend(s: seq<int>, t: seq<int>, x: int)
    ensures Count(s + t, x) == Count(s, x) + Count(t, x)
    decreases |t|
  {
    if t != [] {
      var t' := t[..|t| - 1];
      assert (s + t)[..|s + t| - 1] == s + t';
      CountAppend(s, t', x);
    } else {
      assert s + t == s;
    }
  }

  /** Extending a prefix by one position adds that position's contribution. */
  lemma CountPrefixStep(s: seq<int>, i: nat, x: int)
    requires i < |s|
    ensures Count(s[..i + 1], x) == Count(s[..i], x) + (if s[i] == x then 1 else 0)
  {
    assert s[..i + 1][..i] == s[..i];
  }

  /** A prefix holds no more copies of `x` than the whole sequence. */
  lemma CountPrefixBound(s: seq<int>, i: nat, x: int)
    requires i <= |s|
    ensures Count(s[..i], x) <= Count(s, x)
  {
    assert s == s[..i] + s[i..];
    CountAppend(s[..i], s[i..], x);
  }

  /** Two sequences that agree on where `a` and `b` occur count them alike. */
  lemma {:induction false} CountCorresponding(s: seq<int>, t: seq<int>, a: int, b: int)
    requires |s| == |t|
    requires forall j :: 0 <= j < |s| ==> (s[j] == a <==> t[j] == b)
    ensures Count(s, a) == Count(t, b)
    decreases |s|
  {
    if s != [] {
      CountCorresponding(s[..|s| - 1], t[..|t| - 1], a, b);
    }
  }

  /** A value that occurs somewhere is counted at least once. */
  lemma {:induction false} CountOccurring(s: seq<int>, j: nat)
    requires j < |s|
    ensures Count(s, s[j]) >= 1
    decreases |s|
  {
    if j < |s| - 1 {
      CountOccurring(s[..|s| - 1], j);
    }
  }

  /** Size conservation: the populations of `[0, n)` add up to the entries in that range. */
  lemma {:induction false} SumHistogram(s: seq<int>, n: nat)
    ensures Sum(Histogram(s, n)) == CountInRange(s, n)
    decreases |s|
  {
    if s == [] {
      assert Histogram(s, n) == seq(n, r => 0);
      ZeroSum(n);
    } else {
      var s', x := s[..|s| - 1], s[|s| - 1];
      SumHistogram(s', n);
      if 0 <= x < n {
        assert Histogram(s, n) == Histogram(s', n)[x := Histogram(s', n)[x] + 1];
        SumUpdate(Histogram(s', n), x, 1);
      } else {
        assert Histogram(s, n) == Histogram(s', n);
      }
    }
  }

  lemma {:induction false} ZeroSum(n: nat)
    ensures Sum(seq(n, r => 0)) == 0
  {
    if n > 0 {
      assert seq(n, r => 0)[..n - 1] == seq(n - 1, r => 0);
      ZeroSum(n - 1);
    }
  }
}
