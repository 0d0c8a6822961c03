/**
 Cluster extraction of bindings/dbscan.py: count the points of every root,
 keep the roots whose cluster reaches the minimum size, number them densely
 in ascending root order, turn their sizes into CSR offsets with an exclusive
 prefix sum, and scatter the point indices into one buffer, cluster by
 cluster.

 A final label is a root index in `[0, n)` or negative for noise. The map
 from roots to cluster positions (`positions`, the source's
 `map_cluster_to_offset_position`) shares its storage with the cluster sizes.
 */
module ClusterList {
  import opened Seqs
  import opened PrefixSum

  // ---------------------------------------------------------------------------
  // Specification functions

  /** The sizes that reach `minSize`, in the order of their roots. */
  function SurvivingSizes(sizes: seq<int>, minSize: int): (r: seq<int>)
    ensures |r| <= |sizes|
    ensures forall k :: 0 <= k < |r| ==> r[k] >= minSize
  {
    if sizes == [] then []
    else
      var last := sizes[|sizes| - 1];
      SurvivingSizes(sizes[..|sizes| - 1], minSize) + (if last >= minSize then [last] else [])
  }

  /**
   Root to dense cluster number: -1 for a root whose size is below
   `minSize`, otherwise the number of surviving roots below it.
   */
  function DenseMap(sizes: seq<int>, minSize: int): (m: seq<int>)
  {
    seq(|sizes|, r requires 0 <= r < |sizes| =>
      if sizes[r] < minSize then -1 else |SurvivingSizes(sizes[..r], minSize)|)
  }

  /** The cluster number of every point: -1 for noise and for points of filtered roots. */
  function ClusterIds(labels: seq<int>, positions: seq<int>): seq<int>
    requires forall j :: 0 <= j < |labels| ==> labels[j] < |positions|
  {
    seq(|labels|, j requires 0 <= j < |labels| => if labels[j] < 0 then -1 else positions[labels[j]])
  }

  /** CSR offsets of clusters of the given sizes: position `k` is where cluster `k` starts. */
  function Offsets(sizes: seq<int>): seq<int>
  {
    seq(|sizes| + 1, k requires 0 <= k <= |sizes| => Sum(sizes[..k]))
  }

  /**
   `indices` lists, cluster by cluster, the points `ids` assigns to a cluster:
   every entry is a point of the cluster whose slice holds it, no point is
   listed twice, and every assigned point is listed.
   */
  ghost predicate IsClusterList(ids: seq<int>, offset: seq<int>, indices: seq<int>)
  {
    && |offset| >= 1
    && (forall p :: 0 <= p < |indices| ==>
          && 0 <= indices[p] < |ids|
          && 0 <= ids[indices[p]] < |offset| - 1
          && offset[ids[indices[p]]] <= p < offset[ids[indices[p]] + 1])
    && (forall p, q :: 0 <= p < q < |indices| ==> indices[p] != indices[q])
    && (forall j :: 0 <= j < |ids| && ids[j] >= 0 ==> exists p :: 0 <= p < |indices| && indices[p] == j)
  }

  // ---------------------------------------------------------------------------
  // Lemmas about the dense renumbering

  lemma {:induction false} SurvivingSizesAppend(a: seq<int>, b: seq<int>, minSize: int)
    ensures SurvivingSizes(a + b, minSize) == SurvivingSizes(a, minSize) + SurvivingSizes(b, minSize)
    decreases |b|
  {
    if b == [] {
      assert a + b == a;
    } else {
      var b' := b[..|b| - 1];
      assert (a + b)[..|a + b| - 1] == a + b';
      SurvivingSizesAppend(a, b', minSize);
    }
  }

  /** Splits `sizes` around position `r`. */
  lemma SurvivingSizesAround(sizes: seq<int>, minSize: int, r: nat)
    requires r < |sizes|
    ensures SurvivingSizes(sizes, minSize) ==
      SurvivingSizes(sizes[..r], minSize)
      + (if sizes[r] >= minSize then [sizes[r]] else [])
      + SurvivingSizes(sizes[r + 1..], minSize)
  {
    assert sizes == sizes[..r] + [sizes[r]] + sizes[r + 1..];
    assert [sizes[r]][..0] == [];
    SurvivingSizesAppend(sizes[..r] + [sizes[r]], sizes[r + 1..], minSize);
    SurvivingSizesAppend(sizes[..r], [sizes[r]], minSize);
  }

  /** One root more: it extends the survivors exactly when it survives, and the map numbers it accordingly. */
  lemma FilterStep(sizes: seq<int>, minSize: int, i: nat)
    requires i < |sizes|
    ensures SurvivingSizes(sizes[..i + 1], minSize) ==
      SurvivingSizes(sizes[..i], minSize) + (if sizes[i] >= minSize then [sizes[i]] else [])
    ensures DenseMap(sizes, minSize)[i] == if sizes[i] < minSize then -1 else |SurvivingSizes(sizes[..i], minSize)|
  {
    assert sizes[..i + 1][..i] == sizes[..i];
  }

  /** A surviving root is numbered within range, and its number indexes its own size. */
  lemma DenseMapNumbering(sizes: seq<int>, minSize: int, r: nat)
    requires r < |sizes| && sizes[r] >= minSize
    ensures 0 <= DenseMap(sizes, minSize)[r] < |SurvivingSizes(sizes, minSize)|
    ensures SurvivingSizes(sizes, minSize)[DenseMap(sizes, minSize)[r]] == sizes[r]
  {
    SurvivingSizesAround(sizes, minSize, r);
  }

  /** The numbering is strictly ascending in the root, hence one-to-one. */
  lemma DenseMapAscending(sizes: seq<int>, minSize: int, r1: nat, r2: nat)
    requires r1 < r2 < |sizes| && sizes[r1] >= minSize && sizes[r2] >= minSize
    ensures DenseMap(sizes, minSize)[r1] < DenseMap(sizes, minSize)[r2]
  {
    var t := sizes[..r2];
    assert t[..r1] == sizes[..r1];
    SurvivingSizesAround(t, minSize, r1);
  }

  /** Every cluster number below the count of survivors belongs to some surviving root. */
  lemma {:induction false} DenseMapOnto(sizes: seq<int>, minSize: int, k: nat)
    requires k < |SurvivingSizes(sizes, minSize)|
    ensures exists r :: 0 <= r < |sizes| && sizes[r] >= minSize && DenseMap(sizes, minSize)[r] == k
    decreases |sizes|
  {
    var n := |sizes|;
    var front := sizes[..n - 1];
    assert SurvivingSizes(sizes, minSize) ==
      SurvivingSizes(front, minSize) + (if sizes[n - 1] >= minSize then [sizes[n - 1]] else []);
    if k < |SurvivingSizes(front, minSize)| {
      DenseMapOnto(front, minSize, k);
      var r :| 0 <= r < |front| && front[r] >= minSize && DenseMap(front, minSize)[r] == k;
      assert sizes[..r] == front[..r] && sizes[r] == front[r];
      assert DenseMap(sizes, minSize)[r] == DenseMap(front, minSize)[r];
    } else {
      assert sizes[n - 1] >= minSize && k == |SurvivingSizes(front, minSize)|;
      assert DenseMap(sizes, minSize)[n - 1] == k;
    }
  }

  /**
   A point's cluster number is -1 exactly when it is noise or its root has
   fewer than `minSize` points; points share a number exactly when they share
   a root, and lower roots get lower numbers.
   */
  lemma ClusterIdsMeaning(labels: seq<int>, n: nat, minSize: int, j1: nat, j2: nat)
    requires forall j :: 0 <= j < |labels| ==> labels[j] < n
    requires j1 < |labels| && j2 < |labels|
    ensures var ids := ClusterIds(labels, DenseMap(Histogram(labels, n), minSize));
      && (ids[j1] == -1 <==> labels[j1] < 0 || Count(labels, labels[j1]) < minSize)
      && (ids[j1] >= 0 && ids[j2] >= 0 ==> (ids[j1] == ids[j2] <==> labels[j1] == labels[j2]))
      && (ids[j1] >= 0 && ids[j2] >= 0 && labels[j1] < labels[j2] ==> ids[j1] < ids[j2])
  {
    var sizes := Histogram(labels, n);
    var ids := ClusterIds(labels, DenseMap(sizes, minSize));
    if labels[j1] >= 0 && sizes[labels[j1]] >= minSize {
      DenseMapNumbering(sizes, minSize, labels[j1]);
    }
    if ids[j1] >= 0 && ids[j2] >= 0 {
      if labels[j1] < labels[j2] {
        DenseMapAscending(sizes, minSize, labels[j1], labels[j2]);
      } else if labels[j2] < labels[j1] {
        DenseMapAscending(sizes, minSize, labels[j2], labels[j1]);
      }
    }
  }

  /** With `minSize == 1` the filter drops nothing: every non-noise point keeps a cluster. */
  lemma MinSizeOneKeepsEveryCluster(labels: seq<int>, n: nat, j: nat)
    requires forall i :: 0 <= i < |labels| ==> labels[i] < n
    requires j < |labels|
    ensures ClusterIds(labels, DenseMap(Histogram(labels, n), 1))[j] >= 0 <==> labels[j] >= 0
  {
    if labels[j] >= 0 {
      CountOccurring(labels, j);
      DenseMapNumbering(Histogram(labels, n), 1, labels[j]);
    }
  }

  /**
   The map from roots to cluster positions takes values in
   `[-1, numClusters)`, and cluster `k` holds as many points as the `k`-th
   surviving size says.
   */
  lemma ClusterPopulations(labels: seq<int>, n: nat, minSize: int)
    requires forall j :: 0 <= j < |labels| ==> labels[j] < n
    ensures var sizes := Histogram(labels, n);
      forall r :: 0 <= r < n ==> -1 <= DenseMap(sizes, minSize)[r] < |SurvivingSizes(sizes, minSize)|
    ensures var sizes := Histogram(labels, n);
      forall k :: 0 <= k < |SurvivingSizes(sizes, minSize)| ==>
        Count(ClusterIds(labels, DenseMap(sizes, minSize)), k) == SurvivingSizes(sizes, minSize)[k]
  {
    var sizes := Histogram(labels, n);
    var positions := DenseMap(sizes, minSize);
    var ss := SurvivingSizes(sizes, minSize);
    var ids := ClusterIds(labels, positions);
    forall r | 0 <= r < n ensures -1 <= positions[r] < |ss| {
      if sizes[r] >= minSize {
        DenseMapNumbering(sizes, minSize, r);
      }
    }
    forall k | 0 <= k < |ss| ensures Count(ids, k) == ss[k] {
      DenseMapOnto(sizes, minSize, k);
      var r :| 0 <= r < n && sizes[r] >= minSize && positions[r] == k;
      DenseMapNumbering(sizes, minSize, r);
      forall j | 0 <= j < |labels| ensures ids[j] == k <==> labels[j] == r {
        if ids[j] == k && labels[j] != r {
          if labels[j] < r {
            DenseMapAscending(sizes, minSize, labels[j], r);
          } else {
            DenseMapAscending(sizes, minSize, r, labels[j]);
          }
        }
      }
      CountCorresponding(ids, labels, k, r);
    }
  }

  // ---------------------------------------------------------------------------
  // Lemmas about offsets

  /** Offsets start at 0, each step adds one size, and the last is the total. */
  lemma OffsetsSteps(sizes: seq<int>)
    ensures |Offsets(sizes)| == |sizes| + 1 && Offsets(sizes)[0] == 0
    ensures forall k :: 0 <= k < |sizes| ==> Offsets(sizes)[k + 1] == Offsets(sizes)[k] + sizes[k]
    ensures Offsets(sizes)[|sizes|] == Sum(sizes)
  {
    forall k | 0 <= k < |sizes| ensures Offsets(sizes)[k + 1] == Offsets(sizes)[k] + sizes[k] {
      assert sizes[..k + 1][..k] == sizes[..k];
    }
    assert sizes[..|sizes|] == sizes;
  }

  /** The exclusive scan of the sizes with one trailing slot is the offset array. */
  lemma ScanGivesOffsets(sizes: seq<int>, last: int)
    ensures ExclusiveScan(sizes + [last]) == Offsets(sizes)
  {
    assert forall k :: 0 <= k <= |sizes| ==> (sizes + [last])[..k] == sizes[..k];
  }

  /** Offsets that never decrease step by step never decrease at all. */
  lemma {:induction false} StepsMonotone(o: seq<int>)
    requires forall k :: 0 <= k < |o| - 1 ==> o[k] <= o[k + 1]
    ensures forall a, b :: 0 <= a <= b < |o| ==> o[a] <= o[b]
    decreases |o|
  {
    if |o| > 1 {
      var front := o[..|o| - 1];
      StepsMonotone(front);
      assert forall a :: 0 <= a < |o| - 1 ==> o[a] <= o[|o| - 1] by {
        forall a | 0 <= a < |o| - 1 ensures o[a] <= o[|o| - 1] {
          assert front[a] <= front[|o| - 2];
        }
      }
    }
  }

  /** A position within non-decreasing offsets lies in exactly one slice. */
  lemma {:induction false} FindSlice(o: seq<int>, p: int)
    requires |o| >= 1 && o[0] <= p < o[|o| - 1]
    requires forall k :: 0 <= k < |o| - 1 ==> o[k] <= o[k + 1]
    ensures exists k :: 0 <= k < |o| - 1 && o[k] <= p < o[k + 1]
    decreases |o|
  {
    var n := |o|;
    if p < o[n - 2] {
      FindSlice(o[..n - 1], p);
      var k :| 0 <= k < n - 2 && o[..n - 1][k] <= p < o[..n - 1][k + 1];
      assert o[k] <= p < o[k + 1];
    } else {
      assert o[n - 2] <= p < o[n - 1];
    }
  }

  /**
   Everything the scatter relies on holds for the final labels: the offsets of
   the surviving sizes give every cluster a slice as long as its population,
   and the dense map takes values in `[-1, numClusters)`.
   */
  lemma ExtractionReady(labels: seq<int>, n: nat, minSize: int)
    requires forall j :: 0 <= j < |labels| ==> labels[j] < n
    requires minSize >= 1
    ensures var sizes := Histogram(labels, n);
      var ss := SurvivingSizes(sizes, minSize);
      && ScatterReady(ClusterIds(labels, DenseMap(sizes, minSize)), Offsets(ss), Sum(ss))
      && Sum(ss) >= 0
      && (forall r :: 0 <= r < n ==> -1 <= DenseMap(sizes, minSize)[r])
  {
    var sizes := Histogram(labels, n);
    var ss := SurvivingSizes(sizes, minSize);
    var ids := ClusterIds(labels, DenseMap(sizes, minSize));
    ClusterPopulations(labels, n, minSize);
    OffsetsSteps(ss);
    SumNonNegative(ss);
    var offs := Offsets(ss);
    forall k | 0 <= k < |offs| - 1 ensures offs[k + 1] == offs[k] + Count(ids, k) {
    }
  }

  /**
   The offsets of the surviving sizes start at 0, never decrease, and every
   slice is at least `minSize` long.
   */
  lemma SurvivorOffsets(sizes: seq<int>, minSize: int)
    ensures var ss := SurvivingSizes(sizes, minSize);
      var offs := Offsets(ss);
      && |offs| == |ss| + 1 && offs[0] == 0
      && (forall k :: 0 <= k < |ss| ==> offs[k + 1] - offs[k] == ss[k] >= minSize)
  {
    OffsetsSteps(SurvivingSizes(sizes, minSize));
  }

  /**
   The total of the surviving sizes, which is the length of the index list, is
   the number of points that received a cluster number.
   */
  lemma ClusteredPointCount(labels: seq<int>, n: nat, minSize: int)
    requires forall j :: 0 <= j < |labels| ==> labels[j] < n
    ensures var sizes := Histogram(labels, n);
      var ss := SurvivingSizes(sizes, minSize);
      var ids := ClusterIds(labels, DenseMap(sizes, minSize));
      && (forall j :: 0 <= j < |ids| ==> ids[j] < |ss|)
      && Sum(ss) == CountInRange(ids, |ss|)
  {
    var sizes := Histogram(labels, n);
    var ss := SurvivingSizes(sizes, minSize);
    var ids := ClusterIds(labels, DenseMap(sizes, minSize));
    ClusterPopulations(labels, n, minSize);
    assert Histogram(ids, |ss|) == ss;
    SumHistogram(ids, |ss|);
  }

  /**
   Three points whose final labels are `[0, 0, 2]`: root 0 has two points,
   root 1 none and root 2 one.
   */
  lemma ThreePointSizes()
    ensures Histogram([0, 0, 2], 3) == [2, 0, 1]
  {
    var ls := [0, 0, 2];
    assert ls[..2] == [0, 0] && [0, 0][..1] == [0] && [0][..0] == [];
    assert Count(ls, 0) == 2 && Count(ls, 1) == 0 && Count(ls, 2) == 1;
  }

  /**
   The same three points with minimum size 2: root 0 survives as cluster 0
   holding points 0 and 1 (offsets `[0, 2]`), and the singleton root 2 is
   filtered out.
   */
  lemma ThreePointExtraction()
    ensures SurvivingSizes([2, 0, 1], 2) == [2]
    ensures DenseMap([2, 0, 1], 2) == [0, -1, -1]
    ensures ClusterIds([0, 0, 2], [0, -1, -1]) == [0, 0, -1]
    ensures Offsets([2]) == [0, 2]
  {
    var sizes := [2, 0, 1];
    assert sizes[..2] == [2, 0] && sizes[..1] == [2] && sizes[..0] == [];
    assert [2, 0][..1] == [2] && [2][..0] == [];
    assert SurvivingSizes([2], 2) == [2] && SurvivingSizes([2, 0], 2) == [2];
    assert [2][..1] == [2] && Sum([2]) == 2;
  }

  // ---------------------------------------------------------------------------
  // A resizable view

  /** A one-dimensional view whose extent can be changed, keeping its prefix. */
  class View {
    var data: array<int>

    constructor (n: nat)
      ensures fresh(data) && data.Length == n
      ensures forall k :: 0 <= k < n ==> data[k] == 0
    {
      data := new int[n](k => 0);
    }

    /** Reallocates to extent `n`: the common prefix is kept, new entries are zero. */
    method Resize(n: nat)
      modifies this
      ensures fresh(data) && data.Length == n
      ensures forall k :: 0 <= k < n && k < old(data.Length) ==> data[k] == old(data[k])
      ensures forall k :: old(data.Length) <= k < n ==> data[k] == 0
    {
      var previous := data;
      data := new int[n](k reads previous => if 0 <= k < previous.Length then previous[k] else 0);
    }
  }

  // ---------------------------------------------------------------------------
  // The work units and the parallel loops that run them

  /** `computeClusterSizes` at index `i`: a non-negative label adds one to its root. */
  method ComputeClusterSizesAt(i: nat, labels: array<int>, clusterSizes: array<int>)
    requires i < labels.Length && labels[i] < clusterSizes.Length && labels != clusterSizes
    modifies clusterSizes
    ensures labels[i] < 0 ==> clusterSizes[..] == old(clusterSizes[..])
    ensures 0 <= labels[i] ==>
      clusterSizes[..] == old(clusterSizes[..])[labels[i] := old(clusterSizes[labels[i]]) + 1]
  {
    if labels[i] < 0 {
      return;
    }
    clusterSizes[labels[i]] := clusterSizes[labels[i]] + 1;
  }

  /** `parallel_for` of `computeClusterSizes`: each root gains its population; noise adds nothing. */
  method ComputeClusterSizes(labels: array<int>, clusterSizes: array<int>)
    requires forall j :: 0 <= j < labels.Length ==> labels[j] < clusterSizes.Length
    requires labels != clusterSizes
    modifies clusterSizes
    ensures forall r :: 0 <= r < clusterSizes.Length ==>
      clusterSizes[r] == old(clusterSizes[r]) + Count(labels[..], r)
  {
    var i := 0;
    while i < labels.Length
      invariant 0 <= i <= labels.Length
      invariant forall r :: 0 <= r < clusterSizes.Length ==>
        clusterSizes[r] == old(clusterSizes[r]) + Count(labels[..i], r)
    {
      ComputeClusterSizesAt(i, labels, clusterSizes);
      forall r | 0 <= r < clusterSizes.Length
        ensures clusterSizes[r] == old(clusterSizes[r]) + Count(labels[..i + 1], r)
      {
        CountPrefixStep(labels[..], i, r);
      }
      i := i + 1;
    }
    assert labels[..i] == labels[..];
  }

  /**
   `computeClusterOffsetWithFilter` at index `i`. The size at `i` is read
   before the map entry at `i` is written, so the map may be the sizes array.
   A surviving root writes its size at the running count and the count into
   the map, and advances the count; a filtered root maps to -1.
   */
  method ComputeClusterOffsetWithFilter(
    i: nat, update: int, finalPass: bool, clusterSizes: array<int>,
    clusterOffset: array<int>, positions: array<int>, clusterMinSize: int)
    returns (next: int)
    requires i < clusterSizes.Length && i < positions.Length
    requires clusterOffset != clusterSizes && clusterOffset != positions
    requires finalPass && clusterSizes[i] >= clusterMinSize ==> 0 <= update < clusterOffset.Length
    modifies clusterOffset, positions
    ensures next == if old(clusterSizes[i]) < clusterMinSize then update else update + 1
    ensures positions[..] ==
      if finalPass then old(positions[..])[i := if old(clusterSizes[i]) < clusterMinSize then -1 else update]
      else old(positions[..])
    ensures clusterOffset[..] ==
      if finalPass && old(clusterSizes[i]) >= clusterMinSize then old(clusterOffset[..])[update := old(clusterSizes[i])]
      else old(clusterOffset[..])
  {
    var isClusterTooSmall := clusterSizes[i] < clusterMinSize;
    if !isClusterTooSmall {
      if finalPass {
        clusterOffset[update] := clusterSizes[i];
        positions[i] := update;
      }
      next := update + 1;
    } else {
      if finalPass {
        positions[i] := -1;
      }
      next := update;
    }
  }

  /**
   The filtering scan after the first `i` roots: `update` counts their
   survivors, whose sizes fill the front of the offsets while the rest of the
   offsets is untouched, the first `i` map entries hold the dense numbering,
   and the sizes not yet read are intact.
   */
  ghost predicate FilterAfter(
    sizes: seq<int>, offset0: seq<int>, minSize: int,
    cs: seq<int>, offs: seq<int>, pos: seq<int>, update: int, i: nat)
  {
    && i <= |sizes| && |cs| == |sizes| && |pos| == |sizes| && |offs| == |offset0| && |offs| > |sizes|
    && update == |SurvivingSizes(sizes[..i], minSize)| && update <= i
    && (forall k :: 0 <= k < i ==> pos[k] == DenseMap(sizes, minSize)[k])
    && (forall k :: i <= k < |sizes| ==> cs[k] == sizes[k])
    && (forall k :: 0 <= k < update ==> offs[k] == SurvivingSizes(sizes[..i], minSize)[k])
    && (forall k :: update <= k < |offs| ==> offs[k] == offset0[k])
  }

  /** The work unit at root `i` extends the filtering scan to the first `i + 1` roots. */
  lemma FilterAdvance(
    sizes: seq<int>, offset0: seq<int>, minSize: int, cs: seq<int>, offs: seq<int>, pos: seq<int>, i: nat,
    cs': seq<int>, offs': seq<int>, pos': seq<int>)
    requires i < |sizes|
    requires FilterAfter(sizes, offset0, minSize, cs, offs, pos, |SurvivingSizes(sizes[..i], minSize)|, i)
    requires var update := |SurvivingSizes(sizes[..i], minSize)|;
      && offs' == (if cs[i] >= minSize then offs[update := cs[i]] else offs)
      && pos' == pos[i := if cs[i] < minSize then -1 else update]
    requires cs' == cs || (cs == pos && cs' == pos')
    ensures FilterAfter(sizes, offset0, minSize, cs', offs', pos',
                        if sizes[i] < minSize then |SurvivingSizes(sizes[..i], minSize)| else |SurvivingSizes(sizes[..i], minSize)| + 1,
                        i + 1)
  {
    FilterStep(sizes, minSize, i);
    var update := |SurvivingSizes(sizes[..i], minSize)|;
    var ss := SurvivingSizes(sizes[..i], minSize);
    var ss' := SurvivingSizes(sizes[..i + 1], minSize);
    var update' := if sizes[i] < minSize then update else update + 1;
    assert cs[i] == sizes[i];
    forall k | i + 1 <= k < |sizes| ensures cs'[k] == sizes[k] {
      assert cs'[k] == cs[k];
    }
    forall k | 0 <= k < i + 1 ensures pos'[k] == DenseMap(sizes, minSize)[k] {
      if k < i {
        assert pos'[k] == pos[k];
      }
    }
    if sizes[i] < minSize {
      assert ss' == ss && offs' == offs;
    } else {
      assert ss' == ss + [sizes[i]] && offs' == offs[update := sizes[i]];
      forall k | 0 <= k < update' ensures offs'[k] == ss'[k] {
        if k < update {
          assert offs'[k] == offs[k] == ss[k];
        }
      }
      forall k | update' <= k < |offs'| ensures offs'[k] == offset0[k] {
        assert offs'[k] == offs[k];
      }
    }
  }

  /** After every root, the survivors fill the front of the offsets and the map is the dense numbering. */
  lemma FilterEnd(sizes: seq<int>, offset0: seq<int>, minSize: int, offs: seq<int>, pos: seq<int>, update: int)
    requires exists cs :: FilterAfter(sizes, offset0, minSize, cs, offs, pos, update, |sizes|)
    ensures update == |SurvivingSizes(sizes, minSize)|
    ensures pos == DenseMap(sizes, minSize)
    ensures offs[..update] == SurvivingSizes(sizes, minSize)
    ensures offs[update..] == offset0[update..]
  {
    assert sizes[..|sizes|] == sizes;
  }

  /**
   The `parallel_scan` of `computeClusterOffsetWithFilter` over all roots:
   the surviving sizes land at the front of `clusterOffset`, the map gets the
   dense numbering, and the result is the number of surviving clusters.
   `positions` may be `clusterSizes` itself.
   */
  method ComputeClusterOffsets(clusterSizes: array<int>, clusterOffset: array<int>, positions: array<int>, clusterMinSize: int)
    returns (numClusters: int)
    requires clusterSizes.Length == positions.Length && clusterOffset.Length > clusterSizes.Length
    requires clusterOffset != clusterSizes && clusterOffset != positions
    modifies clusterOffset, positions
    ensures numClusters == |SurvivingSizes(old(clusterSizes[..]), clusterMinSize)|
    ensures positions[..] == DenseMap(old(clusterSizes[..]), clusterMinSize)
    ensures clusterOffset[..numClusters] == SurvivingSizes(old(clusterSizes[..]), clusterMinSize)
    ensures clusterOffset[numClusters..] == old(clusterOffset[numClusters..])
    ensures clusterSizes != positions ==> clusterSizes[..] == old(clusterSizes[..])
  {
    ghost var sizes := clusterSizes[..];
    ghost var offset0 := clusterOffset[..];
    var n := clusterSizes.Length;
    var update := 0;
    var i := 0;
    assert sizes[..0] == [];
    while i < n
      invariant 0 <= i <= n
      invariant FilterAfter(sizes, offset0, clusterMinSize, clusterSizes[..], clusterOffset[..], positions[..], update, i)
      invariant clusterSizes != positions ==> clusterSizes[..] == sizes
    {
      ghost var cs, offs, pos := clusterSizes[..], clusterOffset[..], positions[..];
      update := ComputeClusterOffsetWithFilter(i, update, true, clusterSizes, clusterOffset, positions, clusterMinSize);
      FilterAdvance(sizes, offset0, clusterMinSize, cs, offs, pos, i, clusterSizes[..], clusterOffset[..], positions[..]);
      i := i + 1;
    }
    FilterEnd(sizes, offset0, clusterMinSize, clusterOffset[..], positions[..], update);
    numClusters := update;
  }

  /**
   `computeClusterIndices` at index `i`: a point of a surviving cluster takes
   the next free slot of its cluster and advances that cluster's cursor.
   */
  method ComputeClusterIndicesAt(
    i: nat, labels: array<int>, positions: array<int>, clusterStarts: array<int>, clusterIndices: array<int>)
    requires i < labels.Length && labels[i] < positions.Length
    requires clusterStarts != clusterIndices
    requires labels != clusterStarts && labels != clusterIndices && positions != clusterStarts && positions != clusterIndices
    requires labels[i] >= 0 && positions[labels[i]] != -1 ==>
      0 <= positions[labels[i]] < clusterStarts.Length && 0 <= clusterStarts[positions[labels[i]]] < clusterIndices.Length
    modifies clusterStarts, clusterIndices
    ensures labels[i] < 0 || positions[labels[i]] == -1 ==>
      clusterStarts[..] == old(clusterStarts[..]) && clusterIndices[..] == old(clusterIndices[..])
    ensures labels[i] >= 0 && positions[labels[i]] != -1 ==>
      var k := positions[labels[i]];
      var p := old(clusterStarts[k]);
      clusterStarts[..] == old(clusterStarts[..])[k := p + 1] && clusterIndices[..] == old(clusterIndices[..])[p := i]
  {
    if labels[i] < 0 {
      return;
    }
    var offsetPos := positions[labels[i]];
    if offsetPos != -1 {
      var position := clusterStarts[offsetPos];
      clusterStarts[offsetPos] := position + 1;
      clusterIndices[position] := i;
    }
  }

  /**
   What the scatter relies on: cluster numbers lie in `[-1, num)`, the offsets
   start at 0 and slice `k` has room for exactly the points of cluster `k`.
   */
  ghost predicate ScatterReady(ids: seq<int>, offs: seq<int>, length: int)
  {
    && |offs| >= 1 && offs[0] == 0
    && (forall j :: 0 <= j < |ids| ==> -1 <= ids[j] < |offs| - 1)
    && (forall k :: 0 <= k < |offs| - 1 ==> offs[k + 1] == offs[k] + Count(ids, k))
    && length == offs[|offs| - 1]
  }

  /** Each cursor has advanced past the points of its cluster among the first `i`, and stays in its slice. */
  ghost predicate CursorsAfter(ids: seq<int>, offs: seq<int>, starts: seq<int>, i: nat)
    requires i <= |ids| && |starts| == |offs| >= 1
  {
    forall k :: 0 <= k < |offs| - 1 ==> starts[k] == offs[k] + Count(ids[..i], k) && starts[k] <= offs[k + 1]
  }

  /** Each of the first `i` points of a cluster sits at its recorded slot, inside its cluster's slice. */
  ghost predicate SlotsRecorded(ids: seq<int>, offs: seq<int>, starts: seq<int>, indices: seq<int>, pos: seq<int>, i: nat)
    requires i <= |ids| && |starts| == |offs| && |pos| == i
    requires forall j :: 0 <= j < |ids| ==> ids[j] < |offs| - 1
  {
    forall j :: 0 <= j < i && ids[j] >= 0 ==>
      offs[ids[j]] <= pos[j] < starts[ids[j]] && 0 <= pos[j] < |indices| && indices[pos[j]] == j
  }

  /** Slot `p` holds one of the first `i` points, of cluster `k`, whose recorded slot is `p`. */
  ghost predicate FilledSlot(ids: seq<int>, indices: seq<int>, pos: seq<int>, i: nat, k: int, p: int)
    requires i <= |ids| && |pos| == i
  {
    0 <= p < |indices| && 0 <= indices[p] < i && ids[indices[p]] == k && pos[indices[p]] == p
  }

  /** Every slot below a cursor holds one of the first `i` points, of the slice's cluster, recorded there. */
  ghost predicate SlotsFilled(ids: seq<int>, offs: seq<int>, starts: seq<int>, indices: seq<int>, pos: seq<int>, i: nat)
    requires i <= |ids| && |starts| == |offs| && |pos| == i
  {
    forall k, p :: 0 <= k < |offs| - 1 && offs[k] <= p < starts[k] ==> FilledSlot(ids, indices, pos, i, k, p)
  }

  /**
   The scatter after the first `i` points: the cursors, the recorded slot
   `pos[j]` of every point so far, and the filled part of every slice agree.
   */
  ghost predicate ScatterAfter(ids: seq<int>, offs: seq<int>, starts: seq<int>, indices: seq<int>, pos: seq<int>, i: nat)
  {
    && |offs| >= 1 && |starts| == |offs| && i <= |ids| && |pos| == i
    && (forall j :: 0 <= j < |ids| ==> ids[j] < |offs| - 1)
    && CursorsAfter(ids, offs, starts, i)
    && SlotsRecorded(ids, offs, starts, indices, pos, i)
    && SlotsFilled(ids, offs, starts, indices, pos, i)
  }

  lemma ScatterStart(ids: seq<int>, offs: seq<int>, indices: seq<int>)
    requires ScatterReady(ids, offs, |indices|)
    ensures ScatterAfter(ids, offs, offs, indices, [], 0)
  {
    assert ids[..0] == [];
  }

  /** The cursor of the cluster of point `i` lies inside that cluster's slice. */
  lemma CursorInSlice(ids: seq<int>, offs: seq<int>, starts: seq<int>, indices: seq<int>, pos: seq<int>, i: nat)
    requires ScatterReady(ids, offs, |indices|)
    requires ScatterAfter(ids, offs, starts, indices, pos, i) && i < |ids| && ids[i] >= 0
    ensures 0 <= offs[ids[i]] <= starts[ids[i]] < offs[ids[i] + 1] <= |indices|
  {
    var k := ids[i];
    CountPrefixStep(ids, i, k);
    CountPrefixBound(ids, i + 1, k);
    StepsMonotone(offs);
  }

  /** Point `i` advances the cursor of its own cluster only. */
  lemma CursorsStep(ids: seq<int>, offs: seq<int>, starts: seq<int>, i: nat, starts': seq<int>)
    requires i < |ids| && |starts| == |offs| >= 1 && CursorsAfter(ids, offs, starts, i)
    requires ids[i] < 0 ==> starts' == starts
    requires ids[i] >= 0 ==> ids[i] < |offs| - 1 && starts[ids[i]] < offs[ids[i] + 1]
    requires ids[i] >= 0 ==> starts' == starts[ids[i] := starts[ids[i]] + 1]
    ensures |starts'| == |offs| && CursorsAfter(ids, offs, starts', i + 1)
  {
    forall k | 0 <= k < |offs| - 1
      ensures starts'[k] == offs[k] + Count(ids[..i + 1], k) && starts'[k] <= offs[k + 1]
    {
      CountPrefixStep(ids, i, k);
    }
  }

  /** Scattering a point of no cluster changes nothing but the recorded slots. */
  lemma ScatterSkip(ids: seq<int>, offs: seq<int>, starts: seq<int>, indices: seq<int>, pos: seq<int>, i: nat)
    requires ScatterReady(ids, offs, |indices|)
    requires ScatterAfter(ids, offs, starts, indices, pos, i) && i < |ids| && ids[i] < 0
    ensures ScatterAfter(ids, offs, starts, indices, pos + [-1], i + 1)
  {
    var pos' := pos + [-1];
    CursorsStep(ids, offs, starts, i, starts);
    assert forall j :: 0 <= j < i ==> pos'[j] == pos[j];
    assert SlotsRecorded(ids, offs, starts, indices, pos', i + 1);
    var i' := i + 1;
    forall k, p | 0 <= k < |offs| - 1 && offs[k] <= p < starts[k]
      ensures FilledSlot(ids, indices, pos', i', k, p)
    {
      assert FilledSlot(ids, indices, pos, i, k, p);
    }
    assert SlotsFilled(ids, offs, starts, indices, pos', i + 1);
  }

  /** A filled slot `p` of cluster `k'` is not the free slot at the cursor of the cluster of point `i`. */
  lemma SlotFree(ids: seq<int>, offs: seq<int>, starts: seq<int>, indices: seq<int>, pos: seq<int>, i: nat, k': int, p: int)
    requires ScatterReady(ids, offs, |indices|)
    requires ScatterAfter(ids, offs, starts, indices, pos, i) && i < |ids| && ids[i] >= 0
    requires 0 <= k' < |offs| - 1 && offs[k'] <= p < starts[k']
    ensures p != starts[ids[i]]
  {
    var k := ids[i];
    CursorInSlice(ids, offs, starts, indices, pos, i);
    StepsMonotone(offs);
    if k' < k {
      assert offs[k' + 1] <= offs[k];
    } else if k' > k {
      assert offs[k + 1] <= offs[k'];
    }
  }

  /** Writing point `i` at the free cursor slot of its cluster records it there and keeps every earlier record. */
  lemma PlaceRecorded(ids: seq<int>, offs: seq<int>, starts: seq<int>, indices: seq<int>, pos: seq<int>, i: nat)
    requires ScatterReady(ids, offs, |indices|)
    requires ScatterAfter(ids, offs, starts, indices, pos, i) && i < |ids| && ids[i] >= 0
    requires 0 <= starts[ids[i]] < |indices|
    ensures var k := ids[i];
      SlotsRecorded(ids, offs, starts[k := starts[k] + 1], indices[starts[k] := i], pos + [starts[k]], i + 1)
  {
    var k := ids[i];
    var q := starts[k];
    var starts', indices', pos' := starts[k := q + 1], indices[q := i], pos + [q];
    CursorInSlice(ids, offs, starts, indices, pos, i);
    forall j | 0 <= j < i + 1 && ids[j] >= 0
      ensures offs[ids[j]] <= pos'[j] < starts'[ids[j]] && 0 <= pos'[j] < |indices'| && indices'[pos'[j]] == j
    {
      if j < i {
        SlotFree(ids, offs, starts, indices, pos, i, ids[j], pos[j]);
        assert pos'[j] == pos[j];
      }
    }
  }

  /** Writing point `i` at the free cursor slot of its cluster fills exactly that slot. */
  lemma PlaceFilled(ids: seq<int>, offs: seq<int>, starts: seq<int>, indices: seq<int>, pos: seq<int>, i: nat)
    requires ScatterReady(ids, offs, |indices|)
    requires ScatterAfter(ids, offs, starts, indices, pos, i) && i < |ids| && ids[i] >= 0
    requires 0 <= starts[ids[i]] < |indices|
    ensures var k := ids[i];
      SlotsFilled(ids, offs, starts[k := starts[k] + 1], indices[starts[k] := i], pos + [starts[k]], i + 1)
  {
    var num, k := |offs| - 1, ids[i];
    var q := starts[k];
    var starts', indices', pos' := starts[k := q + 1], indices[q := i], pos + [q];
    var i' := i + 1;
    forall k', p | 0 <= k' < num && offs[k'] <= p < starts'[k']
      ensures FilledSlot(ids, indices', pos', i', k', p)
    {
      if k' != k || p != q {
        assert p < starts[k'] && FilledSlot(ids, indices, pos, i, k', p);
        SlotFree(ids, offs, starts, indices, pos, i, k', p);
        assert indices'[p] == indices[p] && pos'[indices[p]] == pos[indices[p]];
      } else {
        assert indices'[p] == i && pos'[i] == q;
      }
    }
  }

  /**
   Scattering a point of cluster `k`: it is written at the cursor of `k`,
   which then advances.
   */
  lemma ScatterPlace(ids: seq<int>, offs: seq<int>, starts: seq<int>, indices: seq<int>, pos: seq<int>, i: nat)
    requires ScatterReady(ids, offs, |indices|)
    requires ScatterAfter(ids, offs, starts, indices, pos, i) && i < |ids| && ids[i] >= 0
    requires 0 <= starts[ids[i]] < |indices|
    ensures ScatterAfter(ids, offs, starts[ids[i] := starts[ids[i]] + 1], indices[starts[ids[i]] := i],
                         pos + [starts[ids[i]]], i + 1)
  {
    var k := ids[i];
    CursorInSlice(ids, offs, starts, indices, pos, i);
    CursorsStep(ids, offs, starts, i, starts[k := starts[k] + 1]);
    PlaceRecorded(ids, offs, starts, indices, pos, i);
    PlaceFilled(ids, offs, starts, indices, pos, i);
  }

  /** Once every point is scattered, the cursors sit at the slice ends and the indices form the cluster list. */
  lemma ScatterEnd(ids: seq<int>, offs: seq<int>, starts: seq<int>, indices: seq<int>, pos: seq<int>)
    requires ScatterReady(ids, offs, |indices|)
    requires ScatterAfter(ids, offs, starts, indices, pos, |ids|)
    ensures forall k :: 0 <= k < |offs| - 1 ==> starts[k] == offs[k + 1]
    ensures IsClusterList(ids, offs, indices)
  {
    var num := |offs| - 1;
    assert ids[..|ids|] == ids;
    forall p | 0 <= p < |indices|
      ensures 0 <= indices[p] < |ids| && 0 <= ids[indices[p]] < num
      ensures offs[ids[indices[p]]] <= p < offs[ids[indices[p]] + 1]
      ensures pos[indices[p]] == p
    {
      FindSlice(offs, p);
      var k :| 0 <= k < num && offs[k] <= p < offs[k + 1];
      assert offs[k] <= p < starts[k] && FilledSlot(ids, indices, pos, |ids|, k, p);
    }
  }

  /**
   One point of the scatter: the work unit at `i`, with the scatter invariant
   carried from the first `i` points to the first `i + 1`; `slot` is where
   point `i` was written, or -1.
   */
  method ScatterPoint(
    i: nat, labels: array<int>, positions: array<int>, clusterStarts: array<int>, clusterIndices: array<int>,
    ghost ids: seq<int>, ghost offs: seq<int>, ghost pos: seq<int>)
    returns (ghost slot: int)
    requires forall j :: 0 <= j < labels.Length ==> labels[j] < positions.Length
    requires ids == ClusterIds(labels[..], positions[..]) && i < |ids|
    requires ScatterReady(ids, offs, clusterIndices.Length)
    requires ScatterAfter(ids, offs, clusterStarts[..], clusterIndices[..], pos, i)
    requires clusterStarts != clusterIndices
    requires clusterStarts != labels && clusterStarts != positions
    requires clusterIndices != labels && clusterIndices != positions
    modifies clusterStarts, clusterIndices
    ensures ScatterAfter(ids, offs, clusterStarts[..], clusterIndices[..], pos + [slot], i + 1)
  {
    ghost var starts, indices := clusterStarts[..], clusterIndices[..];
    ghost var k := ids[i];
    assert k == if labels[i] < 0 then -1 else positions[labels[i]];
    ghost var starts', indices' := starts, indices;
    if k >= 0 {
      CursorInSlice(ids, offs, starts, indices, pos, i);
      ScatterPlace(ids, offs, starts, indices, pos, i);
      starts', indices' := starts[k := starts[k] + 1], indices[starts[k] := i];
      slot := starts[k];
    } else {
      ScatterSkip(ids, offs, starts, indices, pos, i);
      slot := -1;
    }
    ComputeClusterIndicesAt(i, labels, positions, clusterStarts, clusterIndices);
    assert clusterStarts[..] == starts';
    assert clusterIndices[..] == indices';
  }

  /**
   `parallel_for` of `computeClusterIndices`. Given offsets whose slices have
   room for exactly the points of each cluster and cursors at the slice
   starts, the indices become a cluster list and each cursor ends at the
   start of the next slice.
   */
  method ComputeClusterIndices(
    labels: array<int>, positions: array<int>, clusterOffset: array<int>,
    clusterStarts: array<int>, clusterIndices: array<int>)
    requires forall j :: 0 <= j < labels.Length ==> labels[j] < positions.Length
    requires ScatterReady(ClusterIds(labels[..], positions[..]), clusterOffset[..], clusterIndices.Length)
    requires forall r :: 0 <= r < positions.Length ==> -1 <= positions[r]
    requires clusterStarts[..] == clusterOffset[..]
    requires clusterStarts != clusterIndices
    requires clusterStarts != labels && clusterStarts != positions && clusterStarts != clusterOffset
    requires clusterIndices != labels && clusterIndices != positions && clusterIndices != clusterOffset
    modifies clusterStarts, clusterIndices
    ensures forall k :: 0 <= k < clusterOffset.Length - 1 ==> clusterStarts[k] == clusterOffset[k + 1]
    ensures IsClusterList(ClusterIds(labels[..], positions[..]), clusterOffset[..], clusterIndices[..])
  {
    ghost var ids := ClusterIds(labels[..], positions[..]);
    ghost var offs := clusterOffset[..];
    ghost var pos: seq<int> := [];
    ScatterStart(ids, offs, clusterIndices[..]);
    var n := labels.Length;
    var i := 0;
    while i < n
      invariant 0 <= i <= n
      invariant ScatterAfter(ids, offs, clusterStarts[..], clusterIndices[..], pos, i)
    {
      ghost var slot := ScatterPoint(i, labels, positions, clusterStarts, clusterIndices, ids, offs, pos);
      pos := pos + [slot];
      i := i + 1;
    }
    ScatterEnd(ids, offs, clusterStarts[..], clusterIndices[..], pos);
  }

  /** A fresh zeroed view of one size per root, filled by `computeClusterSizes`: the histogram of the labels. */
  method NewClusterSizes(labels: array<int>) returns (clusterSizes: array<int>)
    requires forall j :: 0 <= j < labels.Length ==> labels[j] < labels.Length
    ensures fresh(clusterSizes)
    ensures clusterSizes[..] == Histogram(labels[..], labels.Length)
  {
    var n := labels.Length;
    clusterSizes := new int[n](k => 0);
    ComputeClusterSizes(labels, clusterSizes);
    forall r | 0 <= r < n ensures clusterSizes[r] == Histogram(labels[..], n)[r] {
    }
  }

  /**
   Shrinks the offset view to the `numClusters` surviving sizes at its front
   plus one slot, and scans it in place: the CSR offsets of those sizes.
   */
  method ShrinkAndScan(clusterOffset: View, numClusters: nat, ghost survivors: seq<int>)
    requires numClusters < clusterOffset.data.Length && clusterOffset.data[..numClusters] == survivors
    modifies clusterOffset
    ensures fresh(clusterOffset.data)
    ensures clusterOffset.data[..] == Offsets(survivors)
  {
    clusterOffset.Resize(numClusters + 1);
    var offset := clusterOffset.data;
    assert offset[..numClusters] == survivors;
    assert offset[..] == offset[..numClusters] + [offset[numClusters]];
    ScanGivesOffsets(survivors, offset[numClusters]);
    ExclusivePrefixSum(offset);
  }

  /**
   The first half of `sortAndFilterClusters`: counts the points of every root,
   filters and numbers the roots with the filtering scan, shrinks the offset
   view to one slot per surviving cluster plus one, and scans it in place into
   CSR offsets. Returns the root-to-cluster map, which is the sizes buffer.
   */
  method BuildOffsets(labels: array<int>, clusterOffset: View, clusterMinSize: int) returns (positions: array<int>)
    requires forall j :: 0 <= j < labels.Length ==> labels[j] < labels.Length
    requires clusterMinSize >= 1
    modifies clusterOffset
    ensures fresh(positions) && fresh(clusterOffset.data) && positions != clusterOffset.data
    ensures positions[..] == DenseMap(Histogram(labels[..], labels.Length), clusterMinSize)
    ensures clusterOffset.data[..] == Offsets(SurvivingSizes(Histogram(labels[..], labels.Length), clusterMinSize))
  {
    ghost var ls := labels[..];
    var n := labels.Length;
    var clusterSizes := NewClusterSizes(labels);
    ghost var sizes := Histogram(ls, n);
    ghost var ss := SurvivingSizes(sizes, clusterMinSize);

    positions := clusterSizes;
    clusterOffset.Resize(n + 1);
    var numClusters := ComputeClusterOffsets(clusterSizes, clusterOffset.data, positions, clusterMinSize);
    assert clusterOffset.data[..numClusters] == ss && positions[..] == DenseMap(sizes, clusterMinSize);
    ShrinkAndScan(clusterOffset, numClusters, ss);
    assert positions[..] == DenseMap(sizes, clusterMinSize) && labels[..] == ls;
  }

  /**
   The second half of `sortAndFilterClusters`: copies the offsets into fresh
   cursors, resizes the index view to the total of the offsets, and scatters
   the points into it.
   */
  method ScatterIntoView(labels: array<int>, positions: array<int>, clusterOffset: array<int>, clusterIndices: View)
    requires forall j :: 0 <= j < labels.Length ==> labels[j] < positions.Length
    requires forall r :: 0 <= r < positions.Length ==> -1 <= positions[r]
    requires clusterOffset.Length >= 1 && clusterOffset[clusterOffset.Length - 1] >= 0
    requires ScatterReady(ClusterIds(labels[..], positions[..]), clusterOffset[..], clusterOffset[clusterOffset.Length - 1])
    requires clusterOffset != labels && clusterOffset != positions
    modifies clusterIndices
    ensures fresh(clusterIndices.data) && clusterIndices.data.Length == clusterOffset[clusterOffset.Length - 1]
    ensures IsClusterList(ClusterIds(labels[..], positions[..]), clusterOffset[..], clusterIndices.data[..])
  {
    ghost var ids := ClusterIds(labels[..], positions[..]);
    var clusterStarts := new int[clusterOffset.Length];
    forall k | 0 <= k < clusterStarts.Length {
      clusterStarts[k] := clusterOffset[k];
    }
    assert clusterStarts[..] == clusterOffset[..];
    clusterIndices.Resize(clusterOffset[clusterOffset.Length - 1]);
    assert ClusterIds(labels[..], positions[..]) == ids;
    ComputeClusterIndices(labels, positions, clusterOffset, clusterStarts, clusterIndices.data);
  }

  /**
   `sortAndFilterClusters`: rejects `clusterMinSize < 1`; otherwise turns the
   final labels into CSR offsets of the surviving clusters and the list of
   their points, resizing the two caller-provided views.
   */
  method SortAndFilterClusters(labels: array<int>, clusterIndices: View, clusterOffset: View, clusterMinSize: int)
    returns (ok: bool)
    requires forall j :: 0 <= j < labels.Length ==> labels[j] < labels.Length
    requires clusterIndices != clusterOffset
    modifies clusterIndices, clusterOffset
    ensures ok <==> clusterMinSize >= 1
    ensures !ok ==> clusterIndices.data == old(clusterIndices.data) && clusterOffset.data == old(clusterOffset.data)
    ensures ok ==> fresh(clusterIndices.data) && fresh(clusterOffset.data)
    ensures ok ==>
      clusterOffset.data.Length >= 1 && clusterIndices.data.Length == clusterOffset.data[clusterOffset.data.Length - 1]
    ensures ok ==>
      clusterOffset.data[..] == Offsets(SurvivingSizes(Histogram(labels[..], labels.Length), clusterMinSize))
    ensures ok ==>
      IsClusterList(ClusterIds(labels[..], DenseMap(Histogram(labels[..], labels.Length), clusterMinSize)),
                    clusterOffset.data[..], clusterIndices.data[..])
  {
    if clusterMinSize < 1 {
      return false;
    }
    ok := true;
    ghost var ls := labels[..];
    ghost var sizes := Histogram(ls, labels.Length);
    ghost var ss := SurvivingSizes(sizes, clusterMinSize);
    ExtractionReady(ls, labels.Length, clusterMinSize);
    ghost var ids := ClusterIds(ls, DenseMap(sizes, clusterMinSize));
    var positions := BuildOffsets(labels, clusterOffset, clusterMinSize);
    var offset := clusterOffset.data;
    assert labels[..] == ls && positions[..] == DenseMap(sizes, clusterMinSize) && offset[..] == Offsets(ss);

    assert ClusterIds(labels[..], positions[..]) == ids;
    ScatterIntoView(labels, positions, offset, clusterIndices);
    assert clusterOffset.data == offset && offset[..] == Offsets(ss) && labels[..] == ls;
  }
}
