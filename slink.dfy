/** The native clustering routine `slink` of slink.cpp: label initialisation, the
    pairwise distance matrix, the closest-pair merge loop that stops at two clusters,
    and the dense renumbering of the final labels. */
module Slink {
  import opened Labels

  /** A 2-D point; the coordinates are doubles in the source. */
  datatype Point = Point(x: real, y: real)

  /** The distance between two points; `euclidean_distance` in the source. */
  type Metric = (Point, Point) -> real

  /** `std::numeric_limits<double>::max()`, that is (2^53 - 1) * 2^971, the initial
      value of `min_dist` in every merge round. */
  const DoubleMax: real := 179769313486231570814527423731704356798070567525844996598917476803157260780028538760589558632766878171540458953514382464234321326889464182768467546703537516986049910576551282076245490090389328944075868508455133942304583236903222948165808559332123348274797826204144723168738177180919299881250404026184124858368.0

  /** Number of entries of the `old_to_new` renumbering table. */
  const RelabelTableSize: nat := 10000

  // ---------------------------------------------------------------------------
  // The distance matrix
  // ---------------------------------------------------------------------------

  /** The entry `(p, q)` of the distance matrix: the metric on the lower-indexed
      point first, and zero on the diagonal. */
  function PairDistance(points: seq<Point>, d: Metric, p: nat, q: nat): real
    requires p < |points| && q < |points|
  {
    if p < q then d(points[p], points[q])
    else if q < p then d(points[q], points[p])
    else 0.0
  }

  /** `m` is the full distance matrix of the first `m.Length0` points. */
  ghost predicate MatrixOf(m: array2<real>, points: seq<Point>, d: Metric)
    reads m
  {
    m.Length0 == m.Length1 <= |points| &&
    forall p, q :: 0 <= p < m.Length0 && 0 <= q < m.Length1 ==>
      m[p, q] == PairDistance(points, d, p, q)
  }

  /** Fills the symmetric `n` by `n` matrix with a zero diagonal; the metric is
      evaluated once per pair `i < j`. */
  method BuildDistanceMatrix(points: seq<Point>, n: nat, d: Metric) returns (m: array2<real>)
    requires n <= |points|
    ensures fresh(m) && m.Length0 == n && m.Length1 == n
    ensures MatrixOf(m, points, d)
    ensures forall p, q :: 0 <= p < n && 0 <= q < n ==> m[p, q] == m[q, p]
    ensures forall p :: 0 <= p < n ==> m[p, p] == 0.0
  {
    m := new real[n, n]((p, q) => 0.0);
    for i := 0 to n
      invariant forall p, q :: 0 <= p < n && 0 <= q < n ==>
        m[p, q] == if p < i || q < i then PairDistance(points, d, p, q) else 0.0
    {
      for j := i + 1 to n
        invariant forall p, q :: 0 <= p < n && 0 <= q < n ==>
          m[p, q] == if p < i || q < i || (p == i && i < q < j) || (q == i && i < p < j)
                     then PairDistance(points, d, p, q) else 0.0
      {
        var dist := d(points[i], points[j]);
        m[i, j] := dist;
        m[j, i] := dist;
      }
    }
  }

  // ---------------------------------------------------------------------------
  // What one merge round chooses
  // ---------------------------------------------------------------------------

  /** `(i, j)` is a pair of points, `i < j`, currently in different clusters. */
  predicate CrossPair(s: seq<int>, i: int, j: int) {
    0 <= i < j < |s| && s[i] != s[j]
  }

  /** `(p, q)` comes before `(i, j)` in the row-major scan of the merge round. */
  predicate RowMajorBefore(p: int, q: int, i: int, j: int) {
    p < i || (p == i && q < j)
  }

  /** No pair of points in different clusters is closer than the `DoubleMax` sentinel,
      so a merge round finds nothing. */
  ghost predicate NoCandidate(s: seq<int>, points: seq<Point>, d: Metric)
    requires |s| <= |points|
  {
    forall i, j :: CrossPair(s, i, j) ==> d(points[i], points[j]) >= DoubleMax
  }

  /** `(i, j)` is the pair a merge round selects: a cross-cluster pair below the
      sentinel, at minimum distance, and the first such in row-major order (the scan
      only replaces its choice on a strictly smaller distance). */
  ghost predicate FirstClosest(s: seq<int>, points: seq<Point>, d: Metric, i: int, j: int)
    requires |s| <= |points|
  {
    CrossPair(s, i, j) && d(points[i], points[j]) < DoubleMax &&
    (forall p, q :: CrossPair(s, p, q) ==> d(points[p], points[q]) >= d(points[i], points[j])) &&
    (forall p, q :: CrossPair(s, p, q) && RowMajorBefore(p, q, i, j) ==>
      d(points[p], points[q]) > d(points[i], points[j]))
  }

  /** One merge round: the cluster of the second point of the selected pair is
      renamed to the cluster of the first. */
  ghost predicate MergeStep(s: seq<int>, t: seq<int>, points: seq<Point>, d: Metric)
    requires |s| <= |points|
  {
    exists i, j :: FirstClosest(s, points, d, i, j) && t == Rename(s, s[j], s[i])
  }

  /** The merge loop has ended: at most two clusters remain, or no round can merge. */
  ghost predicate Stopped(s: seq<int>, points: seq<Point>, d: Metric)
    requires |s| <= |points|
  {
    ClusterCount(s) <= 2 || NoCandidate(s, points, d)
  }

  /** The label vector a run ends with. */
  function Last(history: seq<seq<int>>): seq<int>
    requires |history| > 0
  {
    history[|history| - 1]
  }

  /** `history` lists the label vectors the merge loop passes through, from the
      initial singletons to the final vector: every round starts with more than two
      clusters and performs one `MergeStep`, and the last vector is `Stopped`. */
  ghost predicate MergeRun(points: seq<Point>, d: Metric, n: nat, history: seq<seq<int>>)
    requires n <= |points|
  {
    |history| >= 1 && history[0] == Identity(n) &&
    (forall k :: 0 <= k < |history| ==> |history[k]| == n) &&
    (forall k :: 0 <= k < |history| - 1 ==>
      ClusterCount(history[k]) > 2 && MergeStep(history[k], history[k + 1], points, d)) &&
    Stopped(Last(history), points, d)
  }

  /** Every pair of distinct points is closer than the sentinel. */
  ghost predicate AllBelowSentinel(points: seq<Point>, d: Metric, n: nat)
    requires n <= |points|
  {
    forall i, j :: 0 <= i < j < n ==> d(points[i], points[j]) < DoubleMax
  }

  // ---------------------------------------------------------------------------
  // Properties of the merge rounds
  // ---------------------------------------------------------------------------

  /** A merge round keeps every label a root, makes the partition coarser and
      removes exactly one cluster. */
  lemma MergeStepEffect(s: seq<int>, t: seq<int>, points: seq<Point>, d: Metric)
    requires |s| <= |points| && RootLabelled(s) && MergeStep(s, t, points, d)
    ensures |t| == |s| && RootLabelled(t) && Coarser(s, t)
    ensures ClusterCount(t) == ClusterCount(s) - 1
  {
    var i, j :| FirstClosest(s, points, d, i, j) && t == Rename(s, s[j], s[i]);
    RenameMerges(s, s[j], s[i]);
  }

  /** A merge round's choice is unique, so a round is a function of the labels. */
  lemma FirstClosestUnique(s: seq<int>, points: seq<Point>, d: Metric, i: int, j: int, i': int, j': int)
    requires |s| <= |points|
    requires FirstClosest(s, points, d, i, j) && FirstClosest(s, points, d, i', j')
    ensures i == i' && j == j'
  {
  }

  lemma MergeStepDeterministic(s: seq<int>, t: seq<int>, t': seq<int>, points: seq<Point>, d: Metric)
    requires |s| <= |points| && MergeStep(s, t, points, d) && MergeStep(s, t', points, d)
    ensures t == t'
  {
    var i, j :| FirstClosest(s, points, d, i, j) && t == Rename(s, s[j], s[i]);
    var i', j' :| FirstClosest(s, points, d, i', j') && t' == Rename(s, s[j'], s[i']);
    FirstClosestUnique(s, points, d, i, j, i', j');
  }

  /** Once the loop has stopped, no further round is possible. */
  lemma StoppedHasNoStep(s: seq<int>, t: seq<int>, points: seq<Point>, d: Metric)
    requires |s| <= |points| && Stopped(s, points, d) && ClusterCount(s) > 2
    ensures !MergeStep(s, t, points, d)
  {
  }

  /** Along a run, the `k`-th label vector is root-labelled and has `n - k` clusters. */
  lemma {:induction false} MergeRunInvariant(points: seq<Point>, d: Metric, n: nat, history: seq<seq<int>>, k: nat)
    requires n <= |points| && MergeRun(points, d, n, history) && k < |history|
    ensures RootLabelled(history[k]) && ClusterCount(history[k]) == n - k
  {
    if k == 0 {
      IdentityClusters(n);
    } else {
      MergeRunInvariant(points, d, n, history, k - 1);
      MergeStepEffect(history[k - 1], history[k], points, d);
    }
  }

  /** What the merge loop leaves behind: a root-labelled vector with one cluster fewer
      per round, a partition that only got coarser, at least `min(n, 2)` clusters, and
      exactly `min(n, 2)` when every distance is below the sentinel. */
  lemma MergeRunResult(points: seq<Point>, d: Metric, n: nat, history: seq<seq<int>>)
    requires n <= |points| && MergeRun(points, d, n, history)
    ensures RootLabelled(Last(history))
    ensures ClusterCount(Last(history)) == n - (|history| - 1)
    ensures ClusterCount(Last(history)) >= (if n < 2 then n else 2)
    ensures forall k :: 0 <= k < |history| - 1 ==> Coarser(history[k], history[k + 1])
    ensures AllBelowSentinel(points, d, n) ==>
      ClusterCount(Last(history)) == (if n < 2 then n else 2)
  {
    var last := Last(history);
    MergeRunInvariant(points, d, n, history, |history| - 1);
    forall k | 0 <= k < |history| - 1 ensures Coarser(history[k], history[k + 1]) {
      MergeRunInvariant(points, d, n, history, k);
      MergeStepEffect(history[k], history[k + 1], points, d);
    }
    if |history| > 1 {
      MergeRunInvariant(points, d, n, history, |history| - 2);
    }
    if AllBelowSentinel(points, d, n) && ClusterCount(last) > 2 {
      TwoClustersDiffer(last);
      var i, j :| 0 <= i < j < |last| && last[i] != last[j];
      assert CrossPair(last, i, j);
    }
  }

  /** The merge phase is a function of its input: two runs on the same points and
      metric are identical. */
  lemma MergeRunUnique(points: seq<Point>, d: Metric, n: nat, h1: seq<seq<int>>, h2: seq<seq<int>>)
    requires n <= |points| && MergeRun(points, d, n, h1) && MergeRun(points, d, n, h2)
    ensures h1 == h2
  {
    var len := if |h1| < |h2| then |h1| else |h2|;
    SamePrefix(points, d, n, h1, h2, len - 1);
    if |h1| < |h2| {
      StoppedHasNoStep(h1[|h1| - 1], h2[|h1|], points, d);
    } else if |h2| < |h1| {
      StoppedHasNoStep(h2[|h2| - 1], h1[|h2|], points, d);
    }
  }

  lemma {:induction false} SamePrefix(points: seq<Point>, d: Metric, n: nat, h1: seq<seq<int>>, h2: seq<seq<int>>, k: nat)
    requires n <= |points| && MergeRun(points, d, n, h1) && MergeRun(points, d, n, h2)
    requires k < |h1| && k < |h2|
    ensures forall e :: 0 <= e <= k ==> h1[e] == h2[e]
  {
    if k > 0 {
      SamePrefix(points, d, n, h1, h2, k - 1);
      MergeStepDeterministic(h1[k - 1], h1[k], h2[k], points, d);
    }
  }

  // ---------------------------------------------------------------------------
  // The steps of slink
  // ---------------------------------------------------------------------------

  /** Every point starts as its own cluster. */
  method InitLabels(labels: array<int>, n: nat)
    requires n <= labels.Length
    modifies labels
    ensures labels[..n] == Identity(n)
    ensures labels[n..] == old(labels[n..])
  {
    for i := 0 to n
      invariant forall k :: 0 <= k < i ==> labels[k] == k
      invariant forall k :: i <= k < labels.Length ==> labels[k] == old(labels[k])
    {
      labels[i] := i;
    }
  }

  /** One merge round's scan: the labels of the first closest cross-cluster pair,
      or `-1, -1` when no such pair is below the sentinel. */
  method FindClosestPair(labels: array<int>, n: nat, m: array2<real>, ghost points: seq<Point>, ghost d: Metric)
    returns (a: int, b: int, ghost i0: int, ghost j0: int)
    requires n <= labels.Length && n <= |points|
    requires m.Length0 == n && MatrixOf(m, points, d)
    requires RootLabelled(labels[..n])
    ensures (a == -1 || b == -1) <==> NoCandidate(labels[..n], points, d)
    ensures a != -1 && b != -1 ==>
      FirstClosest(labels[..n], points, d, i0, j0) && a == labels[i0] && b == labels[j0]
  {
    ghost var s := labels[..n];
    var minDist := DoubleMax;
    a, b := -1, -1;
    i0, j0 := 0, 0;
    for i := 0 to n
      invariant minDist <= DoubleMax
      invariant (a == -1) == (minDist == DoubleMax) && (b == -1) == (a == -1)
      invariant forall p, q :: CrossPair(s, p, q) && p < i ==> d(points[p], points[q]) >= minDist
      invariant a != -1 ==>
        CrossPair(s, i0, j0) && i0 < i && a == s[i0] && b == s[j0] &&
        minDist == d(points[i0], points[j0]) &&
        forall p, q :: CrossPair(s, p, q) && RowMajorBefore(p, q, i0, j0) ==> d(points[p], points[q]) > minDist
    {
      for j := i + 1 to n
        invariant minDist <= DoubleMax
        invariant (a == -1) == (minDist == DoubleMax) && (b == -1) == (a == -1)
        invariant forall p, q :: CrossPair(s, p, q) && RowMajorBefore(p, q, i, j) ==> d(points[p], points[q]) >= minDist
        invariant a != -1 ==>
          CrossPair(s, i0, j0) && RowMajorBefore(i0, j0, i, j) && a == s[i0] && b == s[j0] &&
          minDist == d(points[i0], points[j0]) &&
          forall p, q :: CrossPair(s, p, q) && RowMajorBefore(p, q, i0, j0) ==> d(points[p], points[q]) > minDist
      {
        if labels[i] != labels[j] && m[i, j] < minDist {
          minDist := m[i, j];
          a, b := labels[i], labels[j];
          i0, j0 := i, j;
        }
      }
    }
  }

  /** Every label equal to `gone` becomes `keep`; nothing else changes. */
  method RenameCluster(labels: array<int>, n: nat, gone: int, keep: int)
    requires n <= labels.Length
    modifies labels
    ensures labels[..n] == Rename(old(labels[..n]), gone, keep)
    ensures labels[n..] == old(labels[n..])
  {
    for i := 0 to n
      invariant forall k :: 0 <= k < i ==> labels[k] == (if old(labels[k]) == gone then keep else old(labels[k]))
      invariant forall k :: i <= k < labels.Length ==> labels[k] == old(labels[k])
    {
      if labels[i] == gone {
        labels[i] := keep;
      }
    }
  }

  /** The merge loop: rounds of `FindClosestPair` and `RenameCluster` while more than
      two clusters remain, leaving early when a round finds no pair. */
  method MergeClusters(labels: array<int>, n: nat, m: array2<real>, ghost points: seq<Point>, ghost d: Metric)
    returns (ghost history: seq<seq<int>>)
    requires n <= labels.Length && n <= |points|
    requires m.Length0 == n && MatrixOf(m, points, d)
    requires labels[..n] == Identity(n)
    modifies labels
    ensures MergeRun(points, d, n, history)
    ensures Last(history) == labels[..n]
    ensures labels[n..] == old(labels[n..])
  {
    IdentityClusters(n);
    var current := n;
    history := [labels[..n]];
    while current > 2
      invariant labels[n..] == old(labels[n..])
      invariant |history| >= 1 && history[0] == Identity(n) && Last(history) == labels[..n]
      invariant forall k :: 0 <= k < |history| ==> |history[k]| == n
      invariant forall k :: 0 <= k < |history| - 1 ==>
        ClusterCount(history[k]) > 2 && MergeStep(history[k], history[k + 1], points, d)
      invariant RootLabelled(labels[..n]) && ClusterCount(labels[..n]) == current
      decreases current
    {
      var a, b, i0, j0 := FindClosestPair(labels, n, m, points, d);
      if a == -1 || b == -1 {
        break;
      }
      ghost var s := labels[..n];
      RenameCluster(labels, n, b, a);
      assert FirstClosest(s, points, d, i0, j0) && labels[..n] == Rename(s, s[j0], s[i0]);
      RenameMerges(s, b, a);
      history := history + [labels[..n]];
      current := current - 1;
    }
  }

  /** The renumbering table after the first `i` points: each label seen so far maps
      to its dense number, every other entry is still -1. */
  ghost predicate TableHolds(table: seq<int>, s: seq<int>, i: nat)
    requires i <= |s|
  {
    forall v :: 0 <= v < |table| ==>
      table[v] == if v in s[..i] then ClusterCount(s[..FirstIndex(s, v)]) else -1
  }

  /** `cur` holds the dense numbers of the first `i` points of `s`, all of whose labels
      fit a table of `size` entries, and the original labels of the rest. */
  ghost predicate PrefixRenumbered(cur: seq<int>, s: seq<int>, i: nat, size: int)
  {
    |cur| == |s| && i <= |s| &&
    (forall k :: 0 <= k < i ==> 0 <= s[k] < size) &&
    (forall k :: 0 <= k < i ==> cur[k] == Renumber(s)[k]) &&
    (forall k :: i <= k < |s| ==> cur[k] == s[k])
  }

  /** The state of the renumbering loop after the first `i` points of `s`: `cur` is
      renumbered up to `i`, `newId` counts the labels seen so far, and the table maps
      them. */
  ghost predicate RelabelState(cur: seq<int>, table: seq<int>, newId: int, s: seq<int>, i: nat)
  {
    PrefixRenumbered(cur, s, i, |table|) &&
    newId == ClusterCount(s[..i]) &&
    TableHolds(table, s, i)
  }

  lemma PrefixStep(cur: seq<int>, s: seq<int>, i: nat, size: int)
    requires PrefixRenumbered(cur, s, i, size) && i < |s| && 0 <= s[i] < size
    ensures PrefixRenumbered(cur[i := Renumber(s)[i]], s, i + 1, size)
  {
  }

  /** One step of the renumbering loop, for a label that fits the table. */
  lemma RelabelStep(cur: seq<int>, table: seq<int>, newId: int, s: seq<int>, i: nat)
    requires RelabelState(cur, table, newId, s, i) && i < |s| && 0 <= s[i] < |table|
    ensures table[s[i]] == -1 ==>
      RelabelState(cur[i := newId], table[s[i] := newId], newId + 1, s, i + 1)
    ensures table[s[i]] != -1 ==>
      RelabelState(cur[i := table[s[i]]], table, newId, s, i + 1)
  {
    TableStep(table, s, i);
    PrefixStep(cur, s, i, |table|);
  }

  /** After the last point the loop state holds the dense renumbering of `s`. */
  lemma RelabelDone(cur: seq<int>, table: seq<int>, newId: int, s: seq<int>)
    requires RelabelState(cur, table, newId, s, |s|)
    ensures cur == Renumber(s)
    ensures forall k :: 0 <= k < |s| ==> 0 <= s[k] < |table|
  {
  }

  /** One step of the renumbering table: `Renumber(s)[i]` is read from the table or
      is the next fresh number. */
  lemma TableStep(table: seq<int>, s: seq<int>, i: nat)
    requires i < |s| && 0 <= s[i] < |table| && TableHolds(table, s, i)
    ensures table[s[i]] == -1 ==>
      TableHolds(table[s[i] := ClusterCount(s[..i])], s, i + 1) &&
      Renumber(s)[i] == ClusterCount(s[..i]) &&
      ClusterCount(s[..i + 1]) == ClusterCount(s[..i]) + 1
    ensures table[s[i]] != -1 ==>
      TableHolds(table, s, i + 1) &&
      Renumber(s)[i] == table[s[i]] &&
      ClusterCount(s[..i + 1]) == ClusterCount(s[..i])
  {
    assert s[..i + 1] == s[..i] + [s[i]];
    ValuesSnoc(s[..i], s[i]);
    if s[i] !in s[..i] {
      FirstIndexUnique(s, s[i], i);
    }
  }

  /** The final renumbering through the 10000-entry `old_to_new` table. `ok` is false
      when a label falls outside the table, where the source reads and writes out of
      bounds; the labels are then left unspecified. */
  method RelabelDense(labels: array<int>, n: nat) returns (ok: bool)
    requires n <= labels.Length
    modifies labels
    ensures ok <==> forall k :: 0 <= k < n ==> 0 <= old(labels[k]) < RelabelTableSize
    ensures ok ==> labels[..n] == Renumber(old(labels[..n]))
    ensures labels[n..] == old(labels[n..])
  {
    ghost var s := labels[..n];
    var table := new int[RelabelTableSize](_ => -1);
    var newId := 0;
    for i := 0 to n
      invariant RelabelState(labels[..n], table[..], newId, s, i)
      invariant labels[n..] == old(labels[n..])
    {
      var lbl := labels[i];
      if lbl < 0 || lbl >= table.Length {
        assert lbl == s[i];
        return false;
      }
      ghost var cur, before := labels[..n], table[..];
      RelabelStep(cur, before, newId, s, i);
      if table[lbl] == -1 {
        table[lbl] := newId;
        assert table[..] == before[lbl := newId];
        newId := newId + 1;
      }
      labels[i] := table[lbl];
      assert labels[..n] == cur[i := table[lbl]];
    }
    RelabelDone(labels[..n], table[..], newId, s);
    ok := true;
  }

  /** `slink(points, n_points, cluster_labels)`: nothing happens when `n <= 0`;
      otherwise the labels are the dense renumbering of the vector the merge loop
      ends with (when every label fits the renumbering table). */
  method Slink(points: seq<Point>, n: int, labels: array<int>, d: Metric)
    returns (ok: bool, ghost history: seq<seq<int>>)
    requires n <= |points| && n <= labels.Length
    modifies labels
    ensures n <= 0 ==> ok && labels[..] == old(labels[..])
    ensures n > 0 ==> MergeRun(points, d, n, history)
    ensures n > 0 ==> (ok <==> forall k :: 0 <= k < n ==> Last(history)[k] < RelabelTableSize)
    ensures 0 < n <= RelabelTableSize ==> ok
    ensures n > 0 && ok ==> labels[..n] == Renumber(Last(history))
    ensures n > 0 ==> labels[n..] == old(labels[n..])
  {
    history := [];
    if n <= 0 {
      return true, history;
    }
    InitLabels(labels, n);
    var m := BuildDistanceMatrix(points, n, d);
    history := MergeClusters(labels, n, m, points, d);
    MergeRunResult(points, d, n, history);
    ok := RelabelDense(labels, n);
  }

  /** The labels `slink` writes: the same partition as the merge loop's result,
      numbered `0 .. k-1` in order of first appearance with point 0 in cluster 0,
      at least `min(n, 2)` clusters, and exactly `min(n, 2)` when every distance is
      below the sentinel. */
  lemma SlinkLabels(points: seq<Point>, d: Metric, n: nat, history: seq<seq<int>>)
    requires 0 < n <= |points| && MergeRun(points, d, n, history)
    ensures |Renumber(Last(history))| == n
    ensures SamePartition(Last(history), Renumber(Last(history)))
    ensures IsLabelRange(Values(Renumber(Last(history))), ClusterCount(Last(history)))
    ensures Renumber(Last(history))[0] == 0
    ensures ClusterCount(Renumber(Last(history))) >= (if n < 2 then n else 2)
    ensures AllBelowSentinel(points, d, n) ==>
      ClusterCount(Renumber(Last(history))) == (if n < 2 then n else 2)
  {
    var last := Last(history);
    MergeRunResult(points, d, n, history);
    RenumberSamePartition(last);
    RenumberValues(last);
    RenumberDense(last);
  }
}
