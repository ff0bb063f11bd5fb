/** Greedy non-maximum suppression.

    `Nms` is the imperative suppression loop: it walks an order of the box
    indices by descending score, keeps the head of the order and drops from
    the rest every box whose overlap ratio with the head is above the
    threshold. `Greedy` is the same selection as a recursive function, used as
    the reference the loop is proved against; the loop's postconditions state
    what the selection guarantees. */
module Nms {
  import opened Iou
  import opened Indexing

  /** The mask of one suppression round: true where the overlap of box `i`
      with the box at that position of `rest` is at most the threshold. */
  function SurvivalMask(iou: (Box, Box) -> real, boxes: seq<Box>, i: nat, rest: seq<nat>,
                        threshold: real): (mask: seq<bool>)
    requires i < |boxes| && InRange(rest, |boxes|)
    ensures |mask| == |rest|
  {
    seq(|rest|, k requires 0 <= k < |rest| => iou(boxes[i], boxes[rest[k]]) <= threshold)
  }

  /** The indices of `rest` that survive the round of box `i`, in their
      order. An index survives exactly when its overlap with box `i` is at
      most the threshold; equality survives. */
  function Survivors(iou: (Box, Box) -> real, boxes: seq<Box>, i: nat, rest: seq<nat>,
                     threshold: real): (r: seq<nat>)
    requires i < |boxes| && InRange(rest, |boxes|)
    ensures |r| <= |rest|
    ensures InRange(r, |boxes|)
    ensures forall x :: x in r ==> x in rest
  {
    var r := Select<nat>(rest, SurvivalMask(iou, boxes, i, rest, threshold));
    assert forall k :: 0 <= k < |r| ==> r[k] < |boxes| by {
      forall k | 0 <= k < |r| ensures r[k] < |boxes| {
        assert r[k] in r;
      }
    }
    r
  }

  /** An index survives the round of box `i` exactly when it is one of
      `rest` and its overlap with box `i` is at most the threshold: an
      overlap equal to the threshold survives. */
  lemma SurvivorsExactly(iou: (Box, Box) -> real, boxes: seq<Box>, i: nat, rest: seq<nat>,
                         threshold: real, x: nat)
    requires i < |boxes| && InRange(rest, |boxes|)
    ensures x in Survivors(iou, boxes, i, rest, threshold)
            <==> x in rest && x < |boxes| && iou(boxes[i], boxes[x]) <= threshold
  {
    var mask := SurvivalMask(iou, boxes, i, rest, threshold);
    if x in Survivors(iou, boxes, i, rest, threshold) {
      var k :| 0 <= k < |rest| && mask[k] && rest[k] == x;
    }
    if x in rest {
      var k :| 0 <= k < |rest| && rest[k] == x;
      if x < |boxes| && iou(boxes[i], boxes[x]) <= threshold {
        assert mask[k];
      }
    }
  }

  /** The survivors keep the relative order they had in `rest`: of any two
      survivors, the earlier one occurs in `rest` before the later one. */
  lemma SurvivorsKeepOrder(iou: (Box, Box) -> real, boxes: seq<Box>, i: nat, rest: seq<nat>, threshold: real)
    requires i < |boxes| && InRange(rest, |boxes|)
    ensures forall p, q :: 0 <= p < q < |Survivors(iou, boxes, i, rest, threshold)| ==>
              OccursBefore(rest, Survivors(iou, boxes, i, rest, threshold)[p],
                           Survivors(iou, boxes, i, rest, threshold)[q])
  {
    var mask := SurvivalMask(iou, boxes, i, rest, threshold);
    assert Survivors(iou, boxes, i, rest, threshold) == Select(rest, mask);
    SelectKeepsOrder(rest, mask);
  }

  /** The indices kept when suppression walks `order`: the head is kept, and
      selection continues on the survivors of the head. Kept indices come
      from `order`, the first of `order` is kept, and at most `|order|`
      indices are kept. */
  function Greedy(iou: (Box, Box) -> real, boxes: seq<Box>, order: seq<nat>, threshold: real): (keep: seq<nat>)
    requires InRange(order, |boxes|)
    ensures |keep| <= |order|
    ensures forall x :: x in keep ==> x in order
    ensures InRange(keep, |boxes|)
    ensures |order| > 0 ==> |keep| > 0 && keep[0] == order[0]
    decreases |order|
  {
    if |order| == 0 then []
    else if |order| == 1 then [order[0]]
    else
      var rest := Greedy(iou, boxes, Survivors(iou, boxes, order[0], order[1..], threshold), threshold);
      assert forall x :: x in rest ==> x in order by {
        forall x | x in rest ensures x in order {
          var j :| 0 <= j < |order| - 1 && order[1..][j] == x;
          assert order[j + 1] == x;
        }
      }
      [order[0]] + rest
  }

  /** No two kept boxes overlap above the threshold, the earlier one taken as
      the reference. */
  predicate KeptApart(iou: (Box, Box) -> real, boxes: seq<Box>, threshold: real, keep: seq<nat>)
    requires InRange(keep, |boxes|)
  {
    forall p, q :: 0 <= p < q < |keep| ==> iou(boxes[keep[p]], boxes[keep[q]]) <= threshold
  }

  /** Index `x` is accounted for by a kept box whose score is at least its own
      and whose ratio with it is above the threshold. */
  predicate Suppressed(iou: (Box, Box) -> real, boxes: seq<Box>, scores: seq<real>, threshold: real,
                       keep: seq<nat>, x: nat)
    requires |boxes| == |scores| && InRange(keep, |boxes|) && x < |boxes|
  {
    exists k :: 0 <= k < |keep| && scores[x] <= scores[keep[k]]
                 && threshold < iou(boxes[keep[k]], boxes[x])
  }

  /** Every two different boxes overlap at most by the threshold. */
  predicate NoOverlapAbove(iou: (Box, Box) -> real, boxes: seq<Box>, threshold: real) {
    forall i, j :: 0 <= i < |boxes| && 0 <= j < |boxes| && i != j ==> iou(boxes[i], boxes[j]) <= threshold
  }

  /** One round of the loop body: the ratio of box `i` against the boxes
      at the indices of `rest`, the mask of ratios at or below the threshold, and the
      indices of `rest` that the mask selects. */
  method SuppressRound(boxes: seq<Box>, i: nat, rest: seq<nat>, threshold: real)
    returns (survivors: seq<nat>)
    requires i < |boxes| && InRange(rest, |boxes|)
    ensures survivors == Survivors(PairIou, boxes, i, rest, threshold)
  {
    var candidates := seq(|rest|, k requires 0 <= k < |rest| => boxes[rest[k]]);
    var ious := CalculateIou(boxes[i], candidates);
    var mask := seq(|ious|, k requires 0 <= k < |ious| => ious[k] <= threshold);
    assert mask == SurvivalMask(PairIou, boxes, i, rest, threshold);
    survivors := Select(rest, mask);
  }

  /** Suppression of the boxes in `boxes` with confidences `scores`. Returns
      the kept indices and, as a ghost, the descending order by score that the
      selection walked (its order among equal scores is not specified). The
      kept indices are the greedy selection along that order with the
      overlap ratio `PairIou`; the lemmas below state what that selection
      guarantees. */
  method Nms(boxes: seq<Box>, scores: seq<real>, threshold: real)
    returns (keep: seq<nat>, ghost order0: seq<nat>)
    requires |boxes| == |scores|
    ensures IsDescendingOrder(order0, scores)
    ensures keep == Greedy(PairIou, boxes, order0, threshold)
    ensures |boxes| == 0 ==> keep == []
    ensures |boxes| == 1 ==> keep == [0]
    ensures InRange(keep, |boxes|) && Distinct(keep) && SortedByScore(keep, scores)
    ensures KeptApart(PairIou, boxes, threshold, keep)
    ensures |boxes| > 0 ==> |keep| > 0 && forall x :: 0 <= x < |scores| ==> scores[x] <= scores[keep[0]]
    ensures forall x: nat :: x < |boxes| && x !in keep ==> Suppressed(PairIou, boxes, scores, threshold, keep, x)
    ensures |keep| <= |boxes|
    ensures NoOverlapAbove(PairIou, boxes, threshold) ==> keep == order0
  {
    if |boxes| == 0 {
      return [], [];
    }
    var order := ArgsortDescending(scores);
    order0 := order;
    keep := SuppressAlong(boxes, order, threshold);
    if |boxes| == 1 {
      assert order0[0] == 0;
    }
    GreedyDistinctSorted(PairIou, boxes, scores, order0, threshold);
    GreedyKeptApart(PairIou, boxes, order0, threshold);
    FirstKeptIsBest(PairIou, boxes, scores, order0, threshold);
    forall x: nat | x < |boxes| && x !in keep
      ensures Suppressed(PairIou, boxes, scores, threshold, keep, x)
    {
      assert x in order0;
      GreedySuppressesOnlyOverlaps(PairIou, boxes, scores, order0, threshold, x);
    }
    if NoOverlapAbove(PairIou, boxes, threshold) {
      GreedyWithoutOverlap(PairIou, boxes, order0, threshold);
    }
  }

  /** The loop of the selection: take the head of the remaining order, keep
      it, stop when it was the last one, and otherwise go on with the
      survivors of its round. The loop keeps the kept prefix followed by the
      selection along the remaining order equal to the selection along the
      whole order. */
  method SuppressAlong(boxes: seq<Box>, order0: seq<nat>, threshold: real) returns (keep: seq<nat>)
    requires InRange(order0, |boxes|)
    ensures keep == Greedy(PairIou, boxes, order0, threshold)
  {
    var order := order0;
    keep := [];
    while |order| > 0
      invariant InRange(order, |boxes|)
      invariant keep + Greedy(PairIou, boxes, order, threshold) == Greedy(PairIou, boxes, order0, threshold)
      decreases |order|
    {
      var i := order[0];
      keep := keep + [i];
      if |order| == 1 {
        assert Greedy(PairIou, boxes, order, threshold) == [i];
        break;
      }
      GreedyStep(PairIou, boxes, order, threshold);
      order := SuppressRound(boxes, i, order[1..], threshold);
    }
  }

  /** One round of the selection: the head of `order` is kept and the
      selection goes on with its survivors. */
  lemma GreedyStep(iou: (Box, Box) -> real, boxes: seq<Box>, order: seq<nat>, threshold: real)
    requires |order| > 0 && InRange(order, |boxes|)
    ensures Greedy(iou, boxes, order, threshold)
            == [order[0]] + Greedy(iou, boxes, Survivors(iou, boxes, order[0], order[1..], threshold), threshold)
  {
  }

  // ---------------------------------------------------------------------
  // Properties of the greedy selection along a descending order, for any
  // overlap measure
  // ---------------------------------------------------------------------

  /** Along an order of distinct indices sorted by descending score, the kept
      indices are distinct and their scores never increase. */
  lemma {:induction false} GreedyDistinctSorted(iou: (Box, Box) -> real, boxes: seq<Box>, scores: seq<real>,
                                                order: seq<nat>, threshold: real)
    requires |boxes| == |scores| && InRange(order, |boxes|)
    requires Distinct(order) && SortedByScore(order, scores)
    ensures Distinct(Greedy(iou, boxes, order, threshold))
    ensures SortedByScore(Greedy(iou, boxes, order, threshold), scores)
    decreases |order|
  {
    if |order| > 1 {
      var i, rest := order[0], order[1..];
      var s := Survivors(iou, boxes, i, rest, threshold);
      var mask := SurvivalMask(iou, boxes, i, rest, threshold);
      assert s == Select(rest, mask);
      assert Distinct(rest) && SortedByScore(rest, scores) by {
        forall p, q | 0 <= p < q < |rest|
          ensures rest[p] != rest[q] && scores[rest[q]] <= scores[rest[p]]
        {
          assert rest[p] == order[p + 1] && rest[q] == order[q + 1];
        }
      }
      SelectDistinct(rest, mask, |boxes|);
      SelectSorted(rest, mask, scores);
      GreedyDistinctSorted(iou, boxes, scores, s, threshold);
      var tail := Greedy(iou, boxes, s, threshold);
      GreedyStep(iou, boxes, order, threshold);
      var keep := [i] + tail;
      forall p, q | 0 <= p < q < |keep|
        ensures keep[p] != keep[q] && scores[keep[q]] <= scores[keep[p]]
      {
        if p == 0 {
          assert tail[q - 1] in tail;
          var j :| 0 <= j < |rest| && rest[j] == tail[q - 1];
          assert order[j + 1] == keep[q];
        } else {
          assert keep[p] == tail[p - 1] && keep[q] == tail[q - 1];
        }
      }
    }
  }

  /** No kept box overlaps a box kept after it by more than the threshold:
      every later kept box survived the round of each earlier one. */
  lemma {:induction false} GreedyKeptApart(iou: (Box, Box) -> real, boxes: seq<Box>, order: seq<nat>, threshold: real)
    requires InRange(order, |boxes|)
    ensures KeptApart(iou, boxes, threshold, Greedy(iou, boxes, order, threshold))
    decreases |order|
  {
    var keep := Greedy(iou, boxes, order, threshold);
    if |order| > 1 {
      var i, rest := order[0], order[1..];
      var s := Survivors(iou, boxes, i, rest, threshold);
      GreedyKeptApart(iou, boxes, s, threshold);
      var tail := Greedy(iou, boxes, s, threshold);
      assert keep == [i] + tail;
      forall p, q | 0 <= p < q < |keep|
        ensures iou(boxes[keep[p]], boxes[keep[q]]) <= threshold
      {
        if p == 0 {
          assert keep[q] == tail[q - 1] && tail[q - 1] in tail;
          SurvivorsExactly(iou, boxes, i, rest, threshold, keep[q]);
        } else {
          assert keep[p] == tail[p - 1] && keep[q] == tail[q - 1];
        }
      }
    }
  }

  /** Every index of a descending order that is not kept was suppressed: a
      kept box with at least its score overlaps it above the threshold. */
  lemma {:induction false} GreedySuppressesOnlyOverlaps(iou: (Box, Box) -> real, boxes: seq<Box>, scores: seq<real>,
                                                        order: seq<nat>, threshold: real, x: nat)
    requires |boxes| == |scores| && InRange(order, |boxes|) && SortedByScore(order, scores)
    requires x in order && x !in Greedy(iou, boxes, order, threshold)
    ensures x < |boxes| && Suppressed(iou, boxes, scores, threshold, Greedy(iou, boxes, order, threshold), x)
    decreases |order|
  {
    var keep := Greedy(iou, boxes, order, threshold);
    var i, rest := order[0], order[1..];
    var jx :| 0 <= jx < |order| && order[jx] == x;
    assert jx > 0;
    assert x in rest;
    if threshold < iou(boxes[i], boxes[x]) {
      assert keep[0] == i && scores[order[jx]] <= scores[order[0]];
      assert 0 < |keep| && scores[x] <= scores[keep[0]] && threshold < iou(boxes[keep[0]], boxes[x]);
    } else {
      var s := Survivors(iou, boxes, i, rest, threshold);
      var mask := SurvivalMask(iou, boxes, i, rest, threshold);
      assert s == Select(rest, mask);
      assert SortedByScore(rest, scores) by {
        forall p, q | 0 <= p < q < |rest| ensures scores[rest[q]] <= scores[rest[p]] {
          assert rest[p] == order[p + 1] && rest[q] == order[q + 1];
        }
      }
      SelectSorted(rest, mask, scores);
      SurvivorsExactly(iou, boxes, i, rest, threshold, x);
      var tail := Greedy(iou, boxes, s, threshold);
      GreedyStep(iou, boxes, order, threshold);
      GreedySuppressesOnlyOverlaps(iou, boxes, scores, s, threshold, x);
      SuppressedExtends(iou, boxes, scores, threshold, i, tail, x);
    }
  }

  /** An index suppressed by one of `tail` stays suppressed when another
      kept index is put in front. */
  lemma SuppressedExtends(iou: (Box, Box) -> real, boxes: seq<Box>, scores: seq<real>, threshold: real,
                          i: nat, tail: seq<nat>, x: nat)
    requires |boxes| == |scores| && i < |boxes| && InRange(tail, |boxes|) && x < |boxes|
    requires Suppressed(iou, boxes, scores, threshold, tail, x)
    ensures Suppressed(iou, boxes, scores, threshold, [i] + tail, x)
  {
    var k :| 0 <= k < |tail| && scores[x] <= scores[tail[k]] && threshold < iou(boxes[tail[k]], boxes[x]);
    assert ([i] + tail)[k + 1] == tail[k];
  }

  /** Along a descending order of all the boxes, the first kept index has a
      maximal score. */
  lemma FirstKeptIsBest(iou: (Box, Box) -> real, boxes: seq<Box>, scores: seq<real>, order: seq<nat>, threshold: real)
    requires |boxes| == |scores| && IsDescendingOrder(order, scores) && |boxes| > 0
    ensures |Greedy(iou, boxes, order, threshold)| > 0
    ensures forall x :: 0 <= x < |scores| ==> scores[x] <= scores[Greedy(iou, boxes, order, threshold)[0]]
  {
    var keep := Greedy(iou, boxes, order, threshold);
    forall x: nat | x < |scores| ensures scores[x] <= scores[keep[0]] {
      assert x in order;
      var j :| 0 <= j < |order| && order[j] == x;
    }
  }

  /** When no two different boxes overlap above the threshold, nothing is
      suppressed: the selection is the whole order. */
  lemma {:induction false} GreedyWithoutOverlap(iou: (Box, Box) -> real, boxes: seq<Box>, order: seq<nat>, threshold: real)
    requires InRange(order, |boxes|) && Distinct(order)
    requires NoOverlapAbove(iou, boxes, threshold)
    ensures Greedy(iou, boxes, order, threshold) == order
    decreases |order|
  {
    if |order| > 1 {
      var i, rest := order[0], order[1..];
      var mask := SurvivalMask(iou, boxes, i, rest, threshold);
      forall k | 0 <= k < |mask| ensures mask[k] {
        assert rest[k] == order[k + 1] != i;
      }
      SelectAll(rest, mask);
      assert Survivors(iou, boxes, i, rest, threshold) == rest;
      assert Distinct(rest) by {
        forall p, q | 0 <= p < q < |rest| ensures rest[p] != rest[q] {
          assert rest[p] == order[p + 1] && rest[q] == order[q + 1];
        }
      }
      GreedyWithoutOverlap(iou, boxes, rest, threshold);
      GreedyStep(iou, boxes, order, threshold);
      assert order == [i] + rest;
    }
  }
}
