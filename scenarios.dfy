/** Concrete runs of the suppression: a duplicate box, an overlap exactly at
    the threshold, and a three-box scene. Each is stated for every descending
    order of the scores, so it holds for whatever `Nms` returns. */
module Scenarios {
  import opened Iou
  import opened Indexing
  import opened Nms

  /** With two distinct scores the only descending order is the one that
      puts the higher score first. */
  lemma TwoBoxOrder(order: seq<nat>, scores: seq<real>)
    requires |scores| == 2 && scores[1] < scores[0]
    requires IsDescendingOrder(order, scores)
    ensures order == [0, 1]
  {
    assert 0 in order && 1 in order;
  }

  /** A box with a lower score than an identical copy is suppressed whenever
      the threshold is below 1: the copy overlaps it completely. */
  lemma DuplicateSuppressed(a: Box, high: real, low: real, threshold: real, order: seq<nat>)
    requires NonDegenerate(a) && low < high && threshold < 1.0
    requires IsDescendingOrder(order, [high, low])
    ensures Greedy(PairIou, [a, a], order, threshold) == [0]
  {
    TwoBoxOrder(order, [high, low]);
    IouSelf(a);
    var s := Survivors(PairIou, [a, a], 0, [1], threshold);
    SurvivorsExactly(PairIou, [a, a], 0, [1], threshold, 1);
    assert s == [];
  }

  /** A lower-scored box whose overlap with the higher-scored one equals the
      threshold exactly survives. */
  lemma BoundaryKept(a: Box, b: Box, high: real, low: real, order: seq<nat>)
    requires low < high
    requires IsDescendingOrder(order, [high, low])
    ensures Greedy(PairIou, [a, b], order, PairIou(a, b)) == [0, 1]
  {
    TwoBoxOrder(order, [high, low]);
    var s := Survivors(PairIou, [a, b], 0, [1], PairIou(a, b));
    SurvivorsExactly(PairIou, [a, b], 0, [1], PairIou(a, b), 1);
    assert 1 in s;
    assert s == [1];
  }

  const SceneScores: seq<real> := [0.9, 0.8, 0.95]

  /** The only descending order of the three scene scores. */
  lemma SceneOrder(order: seq<nat>)
    requires IsDescendingOrder(order, SceneScores)
    ensures order == [2, 0, 1]
  {
    assert 0 in order && 1 in order && 2 in order;
    var j2 :| 0 <= j2 < 3 && order[j2] == 2;
    var j0 :| 0 <= j0 < 3 && order[j0] == 0;
    var j1 :| 0 <= j1 < 3 && order[j1] == 1;
    assert j2 == 0;
    assert j0 == 1;
    assert j1 == 2;
  }

  /** Boxes 0 and 1 of the scene overlap in a 9 by 9 square, so their
      ratio is 81/119, above 0.3. */
  lemma SceneOverlap(a: Box, b: Box)
    requires a == Box(0.0, 0.0, 10.0, 10.0) && b == Box(1.0, 1.0, 11.0, 11.0)
    ensures PairIou(a, b) > 0.3
  {
    assert OverlapWidth(a, b) == 9.0 && OverlapHeight(a, b) == 9.0;
    assert IntersectionArea(a, b) == 81.0;
    assert Area(a) == 100.0 && Area(b) == 100.0;
    assert UnionArea(a, b) == 119.0;
  }

  /** A box apart from two others has ratio 0 with each of them. */
  lemma ApartFromBoth(c: Box, a: Box, b: Box)
    requires Apart(c, a) && Apart(c, b)
    ensures PairIou(c, a) == 0.0 && PairIou(c, b) == 0.0
  {
    ApartIouZero(c, a);
    ApartIouZero(c, b);
  }

  /** The selection along the scene's order, for any measure with the
      scene's overlaps. */
  lemma SceneGreedy(iou: (Box, Box) -> real, boxes: seq<Box>)
    requires |boxes| == 3
    requires iou(boxes[2], boxes[0]) <= 0.3 && iou(boxes[2], boxes[1]) <= 0.3
    requires iou(boxes[0], boxes[1]) > 0.3
    ensures Greedy(iou, boxes, [2, 0, 1], 0.3) == [2, 0]
  {
    var s1 := Survivors(iou, boxes, 2, [0, 1], 0.3);
    SurvivorsExactly(iou, boxes, 2, [0, 1], 0.3, 0);
    SurvivorsExactly(iou, boxes, 2, [0, 1], 0.3, 1);
    assert s1 == [0, 1];
    var s2 := Survivors(iou, boxes, 0, [1], 0.3);
    SurvivorsExactly(iou, boxes, 0, [1], 0.3, 1);
    assert s2 == [];
    GreedyStep(iou, boxes, [2, 0, 1], 0.3);
    GreedyStep(iou, boxes, [0, 1], 0.3);
  }

  /** In the scene of boxes [0,0,10,10], [1,1,11,11] and [50,50,60,60] with
      scores 0.9, 0.8 and 0.95 and threshold 0.3, the highest-scored box, far
      from the others, is kept first; the next box is kept and suppresses
      the third. */
  lemma SceneKeeps(boxes: seq<Box>, order: seq<nat>)
    requires boxes == [Box(0.0, 0.0, 10.0, 10.0), Box(1.0, 1.0, 11.0, 11.0), Box(50.0, 50.0, 60.0, 60.0)]
    requires IsDescendingOrder(order, SceneScores)
    ensures Greedy(PairIou, boxes, order, 0.3) == [2, 0]
  {
    SceneOrder(order);
    assert Apart(boxes[2], boxes[0]) && Apart(boxes[2], boxes[1]);
    ApartFromBoth(boxes[2], boxes[0], boxes[1]);
    SceneOverlap(boxes[0], boxes[1]);
    SceneGreedy(PairIou, boxes);
  }
}
