/**
 bindings/ArborX_DBSCAN.py: the parameter builder, label initialisation,
 label resolution with opportunistic path compression, noise marking and the
 `dbscan` entry point that sequences them.

 The label array is a union-find forest over the point indices. The neighbour
 query (outside this model) only ever links a root to a smaller index, so the
 forest the rest of the code relies on is one where every parent is a
 non-negative index no larger than its child (`IsForest`).
 */
module ArborxDbscan {
  import opened Seqs

  /** The core-point detection strategy forwarded to the neighbour query. */
  datatype Implementation = Fdbscan | FdbscanDenseBox

  datatype DbscanError = NonPositiveEps | CoreMinSizeBelowTwo

  datatype Result<T> = Ok(value: T) | Err(error: DbscanError)

  /** Builder for the options of `Dbscan`; each setter returns the same object. */
  class Parameters {
    var printTimers: bool
    var implementation: Implementation

    constructor ()
      ensures !printTimers && implementation == FdbscanDenseBox
    {
      printTimers := false;
      implementation := FdbscanDenseBox;
    }

    method SetPrintTimers(value: bool) returns (self: Parameters)
      modifies this
      ensures self == this
      ensures printTimers == value && implementation == old(implementation)
    {
      printTimers := value;
      self := this;
    }

    method SetImplementation(impl: Implementation) returns (self: Parameters)
      modifies this
      ensures self == this
      ensures implementation == impl && printTimers == old(printTimers)
    {
      implementation := impl;
      self := this;
    }
  }

  // ---------------------------------------------------------------------------
  // The label forest and its roots

  /** Every label is a valid index of the array. */
  ghost predicate InRange(s: seq<int>)
  {
    forall k :: 0 <= k < |s| ==> 0 <= s[k] < |s|
  }

  /** Every parent is a non-negative index no larger than its child. */
  ghost predicate IsForest(s: seq<int>)
  {
    forall k :: 0 <= k < |s| ==> 0 <= s[k] <= k
  }

  /** Every label is a root: the forest has depth at most one. */
  ghost predicate IsCompressed(s: seq<int>)
  {
    IsForest(s) && forall k :: 0 <= k < |s| ==> s[s[k]] == s[k]
  }

  /** `labels[i] == i` for every point: every point its own root. */
  function Identity(n: nat): (s: seq<int>)
  {
    seq(n, i requires 0 <= i < n => i)
  }

  /**
   Where the traversal of `finalize_labels` stops when started at `v`: it
   follows parent pointers for as long as they strictly decrease. It ends at
   a node whose parent is not below it, and on a forest that is a root.
   */
  function Find(s: seq<int>, v: int): (r: int)
    requires InRange(s) && 0 <= v < |s|
    ensures 0 <= r <= v && s[r] >= r
    ensures IsForest(s) ==> s[r] == r
    decreases v
  {
    if s[v] < v then Find(s, s[v]) else v
  }

  /** The root of every point. */
  ghost function Roots(s: seq<int>): (r: seq<int>)
    requires InRange(s)
  {
    seq(|s|, k requires 0 <= k < |s| => Find(s, k))
  }

  /**
   What `finalize_labels` does to the labels at point `i`: resolve the root
   reached from its parent and write it back only if it differs.
   */
  ghost function Compress(s: seq<int>, i: nat): seq<int>
    requires InRange(s) && i < |s|
  {
    var r := Find(s, s[i]);
    if r != s[i] then s[i := r] else s
  }

  /** Compress the points of `order`, one after another, in that order. */
  ghost function CompressAll(s: seq<int>, order: seq<nat>): seq<int>
    requires IsForest(s)
    requires forall j :: 0 <= j < |order| ==> order[j] < |s|
    decreases |order|
  {
    if order == [] then s
    else
      var s' := Compress(s, order[0]);
      CompressPreservesRoots(s, order[0]);
      CompressAll(s', order[1..])
  }

  /** On a forest, a point's root is its parent's root. */
  lemma FindFromParent(s: seq<int>, i: nat)
    requires IsForest(s) && i < |s|
    ensures Find(s, s[i]) == Find(s, i)
  {
    if s[i] == i {
    }
  }

  /**
   Compressing one point's pointer keeps the array a forest and changes the
   root of no point, which is why points may be resolved in any order.
   */
  lemma {:induction false} CompressPreservesFind(s: seq<int>, i: nat, k: nat)
    requires IsForest(s) && i < |s| && k < |s|
    ensures IsForest(Compress(s, i))
    ensures Find(Compress(s, i), k) == Find(s, k)
    decreases k
  {
    var s' := Compress(s, i);
    var r := Find(s, s[i]);
    assert IsForest(s') by {
      forall j | 0 <= j < |s'| ensures 0 <= s'[j] <= j {
        if j == i {
          assert r <= s[i] <= i;
        }
      }
    }
    if s' != s {
      if k == i {
        assert s'[i] == r && r < s[i] <= i;
        assert s'[r] == s[r] == r;
      } else if s[k] < k {
        CompressPreservesFind(s, i, s[k]);
      }
    }
  }

  lemma CompressPreservesRoots(s: seq<int>, i: nat)
    requires IsForest(s) && i < |s|
    ensures IsForest(Compress(s, i))
    ensures Roots(Compress(s, i)) == Roots(s)
  {
    CompressPreservesFind(s, i, 0);
    forall k | 0 <= k < |s| ensures Find(Compress(s, i), k) == Find(s, k) {
      CompressPreservesFind(s, i, k);
    }
  }

  /** Compressing the points of `order` keeps a forest and keeps every point's root. */
  lemma {:induction false} CompressAllKeepsRoots(s: seq<int>, order: seq<nat>)
    requires IsForest(s)
    requires forall j :: 0 <= j < |order| ==> order[j] < |s|
    ensures |CompressAll(s, order)| == |s| && IsForest(CompressAll(s, order))
    ensures forall k :: 0 <= k < |s| ==> Find(CompressAll(s, order), k) == Find(s, k)
    decreases |order|
  {
    if order != [] {
      var s' := Compress(s, order[0]);
      CompressPreservesRoots(s, order[0]);
      CompressAllKeepsRoots(s', order[1..]);
      forall k | 0 <= k < |s| ensures Find(CompressAll(s, order), k) == Find(s, k) {
        CompressPreservesFind(s, order[0], k);
      }
    }
  }

  /**
   After compressing the points of `order` in sequence, a listed point holds
   its root and any other point its original parent.
   */
  lemma {:induction false} CompressAllAt(s: seq<int>, order: seq<nat>, k: nat)
    requires IsForest(s) && k < |s|
    requires forall j :: 0 <= j < |order| ==> order[j] < |s|
    ensures |CompressAll(s, order)| == |s|
    ensures CompressAll(s, order)[k] == if k in order then Find(s, k) else s[k]
    decreases |order|
  {
    CompressAllKeepsRoots(s, order);
    if order != [] {
      var i := order[0];
      var s' := Compress(s, i);
      CompressPreservesRoots(s, i);
      CompressPreservesFind(s, i, k);
      FindFromParent(s, i);
      CompressAllAt(s', order[1..], k);
      assert k in order <==> k == i || k in order[1..];
    }
  }

  /**
   The result of compressing does not depend on the order in which points are
   processed, only on which points are.
   */
  lemma ProcessingOrderIrrelevant(s: seq<int>, order1: seq<nat>, order2: seq<nat>)
    requires IsForest(s)
    requires forall j :: 0 <= j < |order1| ==> order1[j] < |s|
    requires forall j :: 0 <= j < |order2| ==> order2[j] < |s|
    requires forall k :: k in order1 <==> k in order2
    ensures CompressAll(s, order1) == CompressAll(s, order2)
  {
    CompressAllKeepsRoots(s, order1);
    CompressAllKeepsRoots(s, order2);
    forall k | 0 <= k < |s| ensures CompressAll(s, order1)[k] == CompressAll(s, order2)[k] {
      CompressAllAt(s, order1, k);
      CompressAllAt(s, order2, k);
    }
  }

  /** On a fully compressed forest, each label already is its root. */
  lemma RootsOfCompressed(s: seq<int>)
    requires IsCompressed(s)
    ensures Roots(s) == s
  {
    forall k | 0 <= k < |s| ensures Find(s, k) == s[k] {
      FindFromParent(s, k);
    }
  }

  /** Resolving roots yields a fully compressed forest with the same roots. */
  lemma RootsIdempotent(s: seq<int>)
    requires IsForest(s)
    ensures IsCompressed(Roots(s))
    ensures Roots(Roots(s)) == Roots(s)
  {
    var t := Roots(s);
    forall k | 0 <= k < |s| ensures t[t[k]] == t[k] {
      assert s[t[k]] == t[k];
    }
    RootsOfCompressed(t);
  }

  /** The identity forest is its own set of roots, each with population one. */
  lemma {:induction false} IdentityPopulations(n: nat, r: nat)
    requires r < n
    ensures Count(Identity(n), r) == 1
  {
    if r < n - 1 {
      assert Identity(n)[..n - 1] == Identity(n - 1);
      IdentityPopulations(n - 1, r);
    } else {
      var t := Identity(n - 1);
      assert Identity(n)[..n - 1] == t;
      CountAbsent(t, r);
    }
  }

  lemma {:induction false} CountAbsent(s: seq<int>, x: int)
    requires forall j :: 0 <= j < |s| ==> s[j] != x
    ensures Count(s, x) == 0
    decreases |s|
  {
    if s != [] {
      CountAbsent(s[..|s| - 1], x);
    }
  }

  // ---------------------------------------------------------------------------
  // Noise and the labels returned by dbscan

  /** `mark_noise` over every point: a point whose cluster has one member becomes -1. */
  ghost function NoiseMarked(labels: seq<int>, sizes: seq<int>): seq<int>
    requires forall k :: 0 <= k < |labels| ==> 0 <= labels[k] < |sizes|
  {
    seq(|labels|, k requires 0 <= k < |labels| => if sizes[labels[k]] == 1 then -1 else labels[k])
  }

  /** The labels `dbscan` returns once the neighbour query has left the forest `f`. */
  ghost function FinalLabels(f: seq<int>): seq<int>
    requires IsForest(f)
  {
    NoiseMarked(Roots(f), Histogram(Roots(f), |f|))
  }

  /**
   A returned label is -1 exactly when the point is alone in its cluster, and
   otherwise it is the point's root; the root populations add up to the
   number of points.
   */
  lemma FinalLabelsMeaning(f: seq<int>)
    requires IsForest(f)
    ensures |FinalLabels(f)| == |f|
    ensures Sum(Histogram(Roots(f), |f|)) == |f|
    ensures forall j :: 0 <= j < |f| ==>
      FinalLabels(f)[j] == if Count(Roots(f), Find(f, j)) == 1 then -1 else Find(f, j)
    ensures forall j :: 0 <= j < |f| ==>
      -1 <= FinalLabels(f)[j] < |f| && (FinalLabels(f)[j] >= 0 ==> f[FinalLabels(f)[j]] == FinalLabels(f)[j])
  {
    var t := Roots(f);
    SumHistogram(t, |f|);
    AllInRange(t, |f|);
  }

  lemma {:induction false} AllInRange(s: seq<int>, n: nat)
    requires forall k :: 0 <= k < |s| ==> 0 <= s[k] < n
    ensures CountInRange(s, n) == |s|
    decreases |s|
  {
    if s != [] {
      AllInRange(s[..|s| - 1], n);
    }
  }

  /**
   With no neighbour query the forest stays the identity, every cluster has
   one member, and every point is returned as noise.
   */
  lemma NoQueryAllNoise(n: nat)
    ensures IsForest(Identity(n))
    ensures FinalLabels(Identity(n)) == seq(n, k => -1)
  {
    var f := Identity(n);
    assert Roots(f) == f;
    forall k | 0 <= k < n ensures FinalLabels(f)[k] == -1 {
      IdentityPopulations(n, k);
    }
  }

  /**
   The traversal assumes parents lie below their children; an acyclic forest
   whose parent lies above is not resolved to its root: in `[2, 0, 2]` point 1
   hangs under root 2 through point 0, but its traversal stops at 0.
   */
  lemma UpwardParentNotResolved()
    ensures InRange([2, 0, 2]) && !IsForest([2, 0, 2])
    ensures Find([2, 0, 2], [2, 0, 2][1]) == 0
  {
    assert [2, 0, 2][0] > 0;
  }

  // ---------------------------------------------------------------------------
  // The work units and the parallel loops that run them

  /** `iota` at index `i`. */
  method IotaAt(i: nat, v: array<int>, value: int)
    requires i < v.Length
    modifies v
    ensures v[..] == old(v[..])[i := value + i]
  {
    v[i] := value + i;
  }

  /** `parallel_for(n, iota)`: `v[i] == value + i` everywhere. */
  method Iota(v: array<int>, value: int)
    modifies v
    ensures forall i :: 0 <= i < v.Length ==> v[i] == value + i
  {
    var i := 0;
    while i < v.Length
      invariant 0 <= i <= v.Length
      invariant forall k :: 0 <= k < i ==> v[k] == value + k
    {
      IotaAt(i, v, value);
      i := i + 1;
    }
  }

  /**
   `finalize_labels` at index `i`: follow parents while they decrease, write
   the root back only if it changed, and add one to that root's population.
   */
  method FinalizeLabelAt(i: nat, clusterSizes: array<int>, labels: array<int>)
    requires i < labels.Length && InRange(labels[..])
    requires clusterSizes.Length == labels.Length && clusterSizes != labels
    modifies clusterSizes, labels
    ensures labels[..] == Compress(old(labels[..]), i)
    ensures labels[i] == Find(old(labels[..]), old(labels[i]))
    ensures var r := labels[i]; clusterSizes[..] == old(clusterSizes[..])[r := old(clusterSizes[..])[r] + 1]
  {
    ghost var s := labels[..];
    var vstat := labels[i];
    var oldLabel := vstat;
    var nextLabel := labels[vstat];
    while vstat > nextLabel
      invariant 0 <= vstat < labels.Length && nextLabel == labels[vstat]
      invariant Find(s, vstat) == Find(s, oldLabel)
      decreases vstat
    {
      vstat := nextLabel;
      nextLabel := labels[vstat];
    }
    if vstat != oldLabel {
      labels[i] := vstat;
    }
    clusterSizes[labels[i]] := clusterSizes[labels[i]] + 1;
  }

  /** The first `i` points hold their roots in `s0`, the rest their original parents. */
  ghost predicate ResolvedUpTo(s: seq<int>, s0: seq<int>, i: nat)
    requires IsForest(s0)
  {
    && |s| == |s0| && i <= |s0|
    && IsForest(s)
    && (forall k :: 0 <= k < |s| ==> Find(s, k) == Find(s0, k))
    && (forall k :: 0 <= k < i ==> s[k] == Find(s0, k))
    && (forall k :: i <= k < |s| ==> s[k] == s0[k])
  }

  /** Resolving point `i` extends the resolved prefix by one. */
  lemma ResolveNext(s: seq<int>, s0: seq<int>, i: nat)
    requires IsForest(s0) && i < |s0| && ResolvedUpTo(s, s0, i)
    ensures ResolvedUpTo(Compress(s, i), s0, i + 1)
    ensures Compress(s, i)[i] == Find(s0, i)
  {
    FindFromParent(s, i);
    CompressPreservesRoots(s, i);
    forall k | 0 <= k < |s| ensures Find(Compress(s, i), k) == Find(s0, k) {
      CompressPreservesFind(s, i, k);
    }
  }

  /**
   `parallel_for` of `finalize_labels`: every label becomes its root, and
   each root's population is added to its entry of `clusterSizes`.
   */
  method FinalizeLabels(clusterSizes: array<int>, labels: array<int>)
    requires IsForest(labels[..])
    requires clusterSizes.Length == labels.Length && clusterSizes != labels
    modifies clusterSizes, labels
    ensures labels[..] == Roots(old(labels[..]))
    ensures forall r :: 0 <= r < clusterSizes.Length ==>
      clusterSizes[r] == old(clusterSizes[r]) + Count(labels[..], r)
  {
    ghost var s0 := labels[..];
    var n := labels.Length;
    var i := 0;
    while i < n
      invariant 0 <= i <= n
      invariant ResolvedUpTo(labels[..], s0, i)
      invariant forall r :: 0 <= r < n ==> clusterSizes[r] == old(clusterSizes[r]) + Count(labels[..i], r)
    {
      ghost var s := labels[..];
      ResolveNext(s, s0, i);
      FinalizeLabelAt(i, clusterSizes, labels);
      assert labels[..i] == s[..i];
      forall r | 0 <= r < n
        ensures clusterSizes[r] == old(clusterSizes[r]) + Count(labels[..i + 1], r)
      {
        CountPrefixStep(labels[..], i, r);
      }
      i := i + 1;
    }
    assert forall k :: 0 <= k < n ==> labels[k] == Roots(s0)[k];
    assert labels[..n] == labels[..];
  }

  /** `mark_noise` at index `i`. */
  method MarkNoiseAt(i: nat, clusterSizes: array<int>, labels: array<int>)
    requires i < labels.Length && 0 <= labels[i] < clusterSizes.Length && clusterSizes != labels
    modifies labels
    ensures labels[..] == old(labels[..])[i := if clusterSizes[old(labels[i])] == 1 then -1 else old(labels[i])]
  {
    if clusterSizes[labels[i]] == 1 {
      labels[i] := -1;
    }
  }

  /** `parallel_for` of `mark_noise`: labels of single-member clusters become -1. */
  method MarkNoise(clusterSizes: array<int>, labels: array<int>)
    requires forall k :: 0 <= k < labels.Length ==> 0 <= labels[k] < clusterSizes.Length
    requires clusterSizes != labels
    modifies labels
    ensures labels[..] == NoiseMarked(old(labels[..]), clusterSizes[..])
  {
    ghost var s0 := labels[..];
    var i := 0;
    while i < labels.Length
      invariant 0 <= i <= labels.Length
      invariant forall k :: 0 <= k < i ==> labels[k] == NoiseMarked(s0, clusterSizes[..])[k]
      invariant forall k :: i <= k < labels.Length ==> labels[k] == s0[k]
    {
      MarkNoiseAt(i, clusterSizes, labels);
      i := i + 1;
    }
  }

  /** Whether the neighbour query runs and unions labels. */
  predicate QueryRuns(impl: Implementation, coreMinSize: int)
  {
    impl == Fdbscan && coreMinSize == 2
  }

  /**
   The end of `dbscan` after the neighbour query: a zeroed size per point,
   `finalize_labels` over every point, then `mark_noise` over every point.
   The labels become the final labels of the forest they held.
   */
  method ResolveClusters(labels: array<int>)
    requires IsForest(labels[..])
    modifies labels
    ensures labels[..] == FinalLabels(old(labels[..]))
  {
    ghost var f := labels[..];
    var n := labels.Length;
    var clusterSizes := new int[n](k => 0);
    FinalizeLabels(clusterSizes, labels);
    assert forall r :: 0 <= r < n ==> clusterSizes[r] == Histogram(Roots(f), n)[r];
    assert clusterSizes[..] == Histogram(Roots(f), n);
    MarkNoise(clusterSizes, labels);
  }

  /**
   `dbscan` over `n` points. The neighbour query is not modelled:
   `neighbourForest` stands for the labels it leaves behind, used only when
   the query runs. Rejects `eps <= 0` and then `coreMinSize < 2`.
   */
  method Dbscan(n: nat, eps: real, coreMinSize: int, parameters: Parameters, neighbourForest: seq<int>)
    returns (res: Result<array<int>>)
    requires |neighbourForest| == n && IsForest(neighbourForest)
    ensures eps <= 0.0 ==> res == Err(NonPositiveEps)
    ensures eps > 0.0 && coreMinSize < 2 ==> res == Err(CoreMinSizeBelowTwo)
    ensures eps > 0.0 && coreMinSize >= 2 ==> res.Ok? && fresh(res.value)
    ensures res.Ok? ==>
      res.value[..] == FinalLabels(if QueryRuns(parameters.implementation, coreMinSize) then neighbourForest else Identity(n))
  {
    if eps <= 0.0 {
      return Err(NonPositiveEps);
    }
    if coreMinSize < 2 {
      return Err(CoreMinSizeBelowTwo);
    }
    var isSpecialCase := coreMinSize == 2;
    var labels := new int[n];
    Iota(labels, 0);
    assert labels[..] == Identity(n);
    if parameters.implementation == Fdbscan && isSpecialCase {
      // The neighbour query unions the labels in place into the given forest.
      forall k | 0 <= k < n {
        labels[k] := neighbourForest[k];
      }
      assert labels[..] == neighbourForest;
    }
    ResolveClusters(labels);
    res := Ok(labels);
  }
}
