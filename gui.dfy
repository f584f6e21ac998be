/** The clustering side of the GUI front end (main.py): reading points from CSV rows,
    running the native routine on them, and the condensed distance list that is
    handed on to the dendrogram code. */
module Gui {
  import opened Labels
  import opened Slink

  datatype Option<T> = None | Some(value: T)

  /** `float(text)`: the parsed value, or `None` where Python raises `ValueError`. */
  type Parser = string -> Option<real>

  // ---------------------------------------------------------------------------
  // Reading the CSV rows
  // ---------------------------------------------------------------------------

  /** A row is kept when it has at least two fields and both of the first two parse. */
  predicate Accepted(row: seq<string>, parse: Parser) {
    |row| >= 2 && parse(row[0]).Some? && parse(row[1]).Some?
  }

  /** The point a kept row stands for. */
  function PointOf(row: seq<string>, parse: Parser): Point
    requires Accepted(row, parse)
  {
    Point(parse(row[0]).value, parse(row[1]).value)
  }

  /** The points of the kept rows, in file order. */
  function ParsedPoints(rows: seq<seq<string>>, parse: Parser): seq<Point>
    decreases |rows|
  {
    if rows == [] then []
    else
      var init := ParsedPoints(rows[..|rows| - 1], parse);
      var last := rows[|rows| - 1];
      if Accepted(last, parse) then init + [PointOf(last, parse)] else init
  }

  /** Reading is row by row: the points of a concatenation are the concatenation of
      the points, so the file order of the kept rows is preserved. */
  lemma {:induction false} ParsedPointsAppend(a: seq<seq<string>>, b: seq<seq<string>>, parse: Parser)
    ensures ParsedPoints(a + b, parse) == ParsedPoints(a, parse) + ParsedPoints(b, parse)
    decreases |b|
  {
    if b == [] {
      assert a + b == a;
    } else {
      var b' := b[..|b| - 1];
      assert (a + b)[..|a + b| - 1] == a + b';
      assert (a + b)[|a + b| - 1] == b[|b| - 1];
      ParsedPointsAppend(a, b', parse);
    }
  }

  /** A single row yields its point when it is kept and nothing otherwise. */
  lemma ParsedPointsSingle(row: seq<string>, parse: Parser)
    ensures ParsedPoints([row], parse) == if Accepted(row, parse) then [PointOf(row, parse)] else []
  {
    assert [row][..0] == [];
  }

  /** A point is read iff some kept row stands for it; nothing is read iff no row is kept. */
  lemma {:induction false} ParsedPointsMembers(rows: seq<seq<string>>, parse: Parser)
    ensures forall p :: p in ParsedPoints(rows, parse) <==>
      exists k :: 0 <= k < |rows| && Accepted(rows[k], parse) && PointOf(rows[k], parse) == p
    ensures ParsedPoints(rows, parse) == [] <==> forall k :: 0 <= k < |rows| ==> !Accepted(rows[k], parse)
    decreases |rows|
  {
    if rows != [] {
      var init := rows[..|rows| - 1];
      ParsedPointsMembers(init, parse);
      forall p ensures p in ParsedPoints(rows, parse) <==>
        exists k :: 0 <= k < |rows| && Accepted(rows[k], parse) && PointOf(rows[k], parse) == p
      {
        if p in ParsedPoints(rows, parse) && p in ParsedPoints(init, parse) {
          var k :| 0 <= k < |init| && Accepted(init[k], parse) && PointOf(init[k], parse) == p;
          assert rows[k] == init[k];
        }
        if exists k :: 0 <= k < |rows| && Accepted(rows[k], parse) && PointOf(rows[k], parse) == p {
          var k :| 0 <= k < |rows| && Accepted(rows[k], parse) && PointOf(rows[k], parse) == p;
          if k < |init| {
            assert init[k] == rows[k];
          }
        }
      }
      if ParsedPoints(rows, parse) == [] {
        forall k | 0 <= k < |rows| ensures !Accepted(rows[k], parse) {
          if k < |init| {
            assert init[k] == rows[k];
          }
        }
      }
      if !Accepted(rows[|rows| - 1], parse) && forall k :: 0 <= k < |rows| ==> !Accepted(rows[k], parse) {
        forall k | 0 <= k < |init| ensures !Accepted(init[k], parse) {
          assert init[k] == rows[k];
        }
      }
    }
  }

  /** The row loop of `load_csv`: a row with fewer than two fields is skipped, and so
      is one whose first or second field does not parse. */
  method ReadPoints(rows: seq<seq<string>>, parse: Parser) returns (points: seq<Point>)
    ensures points == ParsedPoints(rows, parse)
  {
    points := [];
    for k := 0 to |rows|
      invariant points == ParsedPoints(rows[..k], parse)
    {
      assert rows[..k + 1][..k] == rows[..k];
      var row := rows[k];
      if |row| >= 2 {
        var x := parse(row[0]);
        if x.None? {
          continue;
        }
        var y := parse(row[1]);
        if y.None? {
          continue;
        }
        points := points + [Point(x.value, y.value)];
      }
    }
    assert rows[..|rows|] == rows;
  }

  // ---------------------------------------------------------------------------
  // The condensed distance list
  // ---------------------------------------------------------------------------

  /** `Tri(i) == 0 + 1 + ... + i`. */
  function Tri(i: nat): nat {
    if i == 0 then 0 else Tri(i - 1) + i
  }

  lemma {:induction false} TriClosed(i: nat)
    ensures 2 * Tri(i) == i * (i + 1)
  {
    if i > 0 {
      TriClosed(i - 1);
      assert i * (i + 1) == (i - 1) * i + 2 * i;
    }
  }

  /** Position of the first entry of row `i` in the condensed list of `n` points:
      rows `0 .. i-1` hold `n-1`, `n-2`, ..., `n-i` entries. */
  function RowStart(n: int, i: nat): int {
    if i == 0 then 0 else RowStart(n, i - 1) + (n - i)
  }

  /** Position of the pair `(i, j)`, `i < j`, in the condensed list of `n` points. */
  function CondensedIndex(n: int, i: nat, j: int): int {
    RowStart(n, i) + (j - i - 1)
  }

  /** The closed form `i*n - i*(i+1)/2` of the row start. */
  lemma {:induction false} RowStartClosed(n: int, i: nat)
    ensures RowStart(n, i) == i * n - i * (i + 1) / 2
  {
    TriClosed(i);
    if i > 0 {
      RowStartClosed(n, i - 1);
      TriClosed(i - 1);
      assert i * n == (i - 1) * n + n;
    }
  }

  /** The list of `n` points has `n * (n - 1) / 2` entries. */
  lemma RowStartTotal(n: nat)
    ensures RowStart(n, n) == n * (n - 1) / 2
  {
    RowStartClosed(n, n);
    TriClosed(n);
    if n > 0 {
      TriClosed(n - 1);
      assert n * n == (n - 1) * n + n;
    }
  }

  lemma {:induction false} RowStartMonotone(n: int, a: nat, b: nat)
    requires a <= b <= n
    ensures RowStart(n, a) <= RowStart(n, b)
    decreases b - a
  {
    if a < b {
      RowStartMonotone(n, a + 1, b);
    }
  }

  /** The layout is row-major: a pair earlier in the scan sits at a smaller position,
      so distinct pairs occupy distinct positions. */
  lemma CondensedIndexOrder(n: int, i: nat, j: nat, p: nat, q: nat)
    requires i < j < n && p < q < n && RowMajorBefore(i, j, p, q)
    ensures CondensedIndex(n, i, j) < CondensedIndex(n, p, q)
  {
    if i < p {
      RowStartMonotone(n, i + 1, p);
    }
  }

  /** The distances from point `i` to each later point, in index order. */
  function Row(pts: seq<Point>, d: Metric, i: nat): seq<real>
    requires i < |pts|
  {
    seq(|pts| - i - 1, k requires 0 <= k < |pts| - i - 1 => d(pts[i], pts[i + 1 + k]))
  }

  /** The rows of points `0 .. m-1`, one after the other. */
  function Rows(pts: seq<Point>, d: Metric, m: nat): seq<real>
    requires m <= |pts|
  {
    if m == 0 then [] else Rows(pts, d, m - 1) + Row(pts, d, m - 1)
  }

  /** The first `m` rows fill positions `0 .. RowStart(n, m)-1`. */
  lemma {:induction false} RowsLength(pts: seq<Point>, d: Metric, m: nat)
    requires m <= |pts|
    ensures |Rows(pts, d, m)| == RowStart(|pts|, m)
  {
    if m > 0 {
      RowsLength(pts, d, m - 1);
    }
  }

  /** The pair `(i, j)` of one of the first `m` rows sits at `CondensedIndex(n, i, j)`. */
  lemma {:induction false} RowsEntry(pts: seq<Point>, d: Metric, m: nat, i: nat, j: nat)
    requires m <= |pts| && i < m && i < j < |pts|
    ensures 0 <= CondensedIndex(|pts|, i, j) < |Rows(pts, d, m)|
    ensures Rows(pts, d, m)[CondensedIndex(|pts|, i, j)] == d(pts[i], pts[j])
    ensures CondensedIndex(|pts|, i, j) == i * |pts| - i * (i + 1) / 2 + (j - i - 1)
  {
    RowStartClosed(|pts|, i);
    var prev, row := Rows(pts, d, m - 1), Row(pts, d, m - 1);
    RowsLength(pts, d, m - 1);
    if i == m - 1 {
      assert row[j - i - 1] == d(pts[i], pts[j]);
    } else {
      RowsEntry(pts, d, m - 1, i, j);
    }
  }

  /** The whole list: `n * (n - 1) / 2` entries, the pair `(i, j)` at `CondensedIndex`. */
  lemma RowsLayout(pts: seq<Point>, d: Metric)
    ensures |Rows(pts, d, |pts|)| == |pts| * (|pts| - 1) / 2
    ensures forall i, j :: 0 <= i < j < |pts| ==>
      0 <= CondensedIndex(|pts|, i, j) < |Rows(pts, d, |pts|)| &&
      Rows(pts, d, |pts|)[CondensedIndex(|pts|, i, j)] == d(pts[i], pts[j])
  {
    RowsLength(pts, d, |pts|);
    RowStartTotal(|pts|);
    forall i, j | 0 <= i < j < |pts|
      ensures 0 <= CondensedIndex(|pts|, i, j) < |Rows(pts, d, |pts|)|
      ensures Rows(pts, d, |pts|)[CondensedIndex(|pts|, i, j)] == d(pts[i], pts[j])
    {
      RowsEntry(pts, d, |pts|, i, j);
    }
  }

  class SLinkGui {
    var points: seq<Point>
    var labels: seq<int>

    /** The loaded points and their cluster labels, both empty at start. */
    constructor ()
      ensures points == [] && labels == []
    {
      points := [];
      labels := [];
    }

    /** `_calculate_distance_matrix`: the upper triangle of the distance matrix, row
        by row, one entry per pair `i < j`. */
    method CalculateDistanceMatrix(pts: seq<Point>, d: Metric) returns (dists: seq<real>)
      ensures dists == Rows(pts, d, |pts|)
      ensures |dists| == |pts| * (|pts| - 1) / 2
      ensures |pts| <= 1 ==> dists == []
      ensures forall i, j :: 0 <= i < j < |pts| ==>
        0 <= CondensedIndex(|pts|, i, j) < |dists| &&
        dists[CondensedIndex(|pts|, i, j)] == d(pts[i], pts[j])
    {
      var n := |pts|;
      dists := [];
      for i := 0 to n
        invariant dists == Rows(pts, d, i)
      {
        for j := i + 1 to n
          invariant dists == Rows(pts, d, i) + Row(pts, d, i)[..j - i - 1]
        {
          assert Row(pts, d, i)[..j - i] == Row(pts, d, i)[..j - i - 1] + [d(pts[i], pts[j])];
          dists := dists + [d(pts[i], pts[j])];
        }
        assert Row(pts, d, i)[..n - i - 1] == Row(pts, d, i);
      }
      RowsLayout(pts, d);
    }

    /** The clustering part of `load_csv`: the kept points become `points`; with no
        points the native routine is not called and `labels` keeps its value;
        otherwise `labels` is what `slink` writes into a zeroed buffer of `n` ints,
        and `dists` is the condensed list passed on to the dendrogram code. */
    method LoadCsv(rows: seq<seq<string>>, parse: Parser, d: Metric)
      returns (dists: seq<real>, ghost history: seq<seq<int>>)
      modifies this
      ensures points == ParsedPoints(rows, parse)
      ensures points == [] ==> labels == old(labels) && dists == []
      ensures points != [] ==> |labels| == |points| && MergeRun(points, d, |points|, history)
      ensures points != [] && |points| <= RelabelTableSize ==> labels == Renumber(Last(history))
      ensures points != [] ==> |dists| == |points| * (|points| - 1) / 2
      ensures points != [] ==> forall i, j :: 0 <= i < j < |points| ==>
        0 <= CondensedIndex(|points|, i, j) < |dists| &&
        dists[CondensedIndex(|points|, i, j)] == d(points[i], points[j])
    {
      var pts := ReadPoints(rows, parse);
      points := pts;
      var n := |pts|;
      if n == 0 {
        return [], [];
      }
      var buffer := new int[n](_ => 0);
      var ok;
      ok, history := Slink.Slink(pts, n, buffer, d);
      labels := buffer[..];
      dists := CalculateDistanceMatrix(pts, d);
    }
  }
}
