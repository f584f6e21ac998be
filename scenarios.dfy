/** Worked runs of the merge loop on small point sets on the x axis, where the
    Euclidean distance is the absolute difference of the x coordinates. */
module Scenarios {
  import opened Labels
  import opened Slink

  /** `|a.x - b.x|`: the Euclidean distance for points with equal y coordinates. */
  function AxisDistance(a: Point, b: Point): real {
    if a.x >= b.x then a.x - b.x else b.x - a.x
  }

  /** Two pairs of neighbouring points, far apart: (0,0), (1,0), (10,0), (11,0). */
  function TwoPairs(): seq<Point> {
    [Point(0.0, 0.0), Point(1.0, 0.0), Point(10.0, 0.0), Point(11.0, 0.0)]
  }

  /** First round on `TwoPairs`: points 0 and 1, tied with (2, 3) but scanned first. */
  lemma TwoPairsFirstRound()
    ensures FirstClosest([0, 1, 2, 3], TwoPairs(), AxisDistance, 0, 1)
  {
    var s, pts := [0, 1, 2, 3], TwoPairs();
    forall p, q | CrossPair(s, p, q) ensures AxisDistance(pts[p], pts[q]) >= 1.0 {
      assert p == 0 || p == 1 || p == 2;
    }
  }

  /** Second round on `TwoPairs`: points 2 and 3. */
  lemma TwoPairsSecondRound()
    ensures FirstClosest([0, 0, 2, 3], TwoPairs(), AxisDistance, 2, 3)
  {
    var s, pts := [0, 0, 2, 3], TwoPairs();
    forall p, q | CrossPair(s, p, q) ensures AxisDistance(pts[p], pts[q]) >= 1.0 {
      assert p == 0 || p == 1 || p == 2;
    }
    forall p, q | CrossPair(s, p, q) && RowMajorBefore(p, q, 2, 3)
      ensures AxisDistance(pts[p], pts[q]) > 1.0
    {
      assert p == 0 || p == 1;
    }
  }

  /** The label vectors of the run on `TwoPairs`. */
  function TwoPairsHistory(): seq<seq<int>> {
    [[0, 1, 2, 3], [0, 0, 2, 3], [0, 0, 2, 2]]
  }

  lemma TwoPairsHistoryIsRun()
    ensures MergeRun(TwoPairs(), AxisDistance, 4, TwoPairsHistory())
  {
    var h := TwoPairsHistory();
    assert h[0] == [0, 1, 2, 3] == Identity(4) && h[1] == [0, 0, 2, 3] && h[2] == [0, 0, 2, 2];
    IdentityClusters(4);
    TwoPairsFirstStep();
    TwoPairsSecondStep();
    TwoPairsStopped();
  }

  lemma TwoPairsStopped()
    ensures Stopped([0, 0, 2, 2], TwoPairs(), AxisDistance)
  {
    assert Values([0, 0, 2, 2]) == {0, 2};
  }

  lemma TwoPairsFirstStep()
    ensures MergeStep([0, 1, 2, 3], [0, 0, 2, 3], TwoPairs(), AxisDistance)
  {
    var s0, s1 := [0, 1, 2, 3], [0, 0, 2, 3];
    TwoPairsFirstRound();
    assert s1 == Rename(s0, s0[1], s0[0]);
  }

  lemma TwoPairsSecondStep()
    ensures MergeStep([0, 0, 2, 3], [0, 0, 2, 2], TwoPairs(), AxisDistance)
    ensures ClusterCount([0, 0, 2, 3]) == 3
  {
    var s1, s2 := [0, 0, 2, 3], [0, 0, 2, 2];
    TwoPairsSecondRound();
    assert s2 == Rename(s1, s1[3], s1[2]);
    assert Values(s1) == {0, 2, 3};
  }

  /** Dense renumbering of the two clusters labelled 0 and 2. */
  lemma RenumberZeroZeroTwoTwo()
    ensures Renumber([0, 0, 2, 2]) == [0, 0, 1, 1]
  {
    assert Renumber([]) == [] && Values([]) == {};
    RenumberSnoc([], 0);
    assert [0] == [] + [0];
    RenumberSnoc([0], 0);
    assert [0, 0] == [0] + [0];
    RenumberSnoc([0, 0], 2);
    assert Values([0, 0]) == {0};
    assert [0, 0, 2] == [0, 0] + [2];
    RenumberSnoc([0, 0, 2], 2);
    FirstIndexUnique([0, 0, 2], 2, 2);
    assert [0, 0, 2, 2] == [0, 0, 2] + [2];
  }

  /** The run on `TwoPairs`: the loop merges (0, 1), then (2, 3), and stops at two
      clusters; `slink` then reports the labels 0, 0, 1, 1. */
  lemma TwoPairsRun(history: seq<seq<int>>)
    requires MergeRun(TwoPairs(), AxisDistance, 4, history)
    ensures history == [[0, 1, 2, 3], [0, 0, 2, 3], [0, 0, 2, 2]]
    ensures Renumber(Last(history)) == [0, 0, 1, 1]
  {
    TwoPairsHistoryIsRun();
    MergeRunUnique(TwoPairs(), AxisDistance, 4, history, TwoPairsHistory());
    RenumberZeroZeroTwoTwo();
  }

  /** Three evenly spaced points (0,0), (1,0), (2,0). */
  function ThreeInLine(): seq<Point> {
    [Point(0.0, 0.0), Point(1.0, 0.0), Point(2.0, 0.0)]
  }

  /** The only round on `ThreeInLine`: points 0 and 1, tied with (1, 2) but scanned first. */
  lemma ThreeInLineRound()
    ensures FirstClosest([0, 1, 2], ThreeInLine(), AxisDistance, 0, 1)
  {
    var s, pts := [0, 1, 2], ThreeInLine();
    forall p, q | CrossPair(s, p, q) ensures AxisDistance(pts[p], pts[q]) >= 1.0 {
      assert p == 0 || p == 1;
    }
  }

  /** The label vectors of the run on `ThreeInLine`. */
  function ThreeInLineHistory(): seq<seq<int>> {
    [[0, 1, 2], [0, 0, 2]]
  }

  lemma ThreeInLineHistoryIsRun()
    ensures MergeRun(ThreeInLine(), AxisDistance, 3, ThreeInLineHistory())
  {
    var pts, d := ThreeInLine(), AxisDistance;
    var s0, s1 := [0, 1, 2], [0, 0, 2];
    assert s0 == Identity(3);
    IdentityClusters(3);
    ThreeInLineRound();
    assert s1 == Rename(s0, s0[1], s0[0]);
    assert Values(s1) == {0, 2};
    assert MergeStep(s0, s1, pts, d);
  }

  /** Dense renumbering of the two clusters labelled 0 and 2. */
  lemma RenumberZeroZeroTwo()
    ensures Renumber([0, 0, 2]) == [0, 0, 1]
  {
    assert Renumber([]) == [] && Values([]) == {};
    RenumberSnoc([], 0);
    assert [0] == [] + [0];
    RenumberSnoc([0], 0);
    assert [0, 0] == [0] + [0];
    RenumberSnoc([0, 0], 2);
    assert Values([0, 0]) == {0};
    assert [0, 0, 2] == [0, 0] + [2];
  }

  /** The run on `ThreeInLine`: one round merges (0, 1) and `slink` reports the
      labels 0, 0, 1. */
  lemma ThreeInLineRun(history: seq<seq<int>>)
    requires MergeRun(ThreeInLine(), AxisDistance, 3, history)
    ensures history == [[0, 1, 2], [0, 0, 2]]
    ensures Renumber(Last(history)) == [0, 0, 1]
  {
    ThreeInLineHistoryIsRun();
    MergeRunUnique(ThreeInLine(), AxisDistance, 3, history, ThreeInLineHistory());
    RenumberZeroZeroTwo();
  }
}
