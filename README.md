# Non-maximum suppression of detection boxes, in Dafny

This project models `exercises/nms.py`, which has two parts:

- `calculate_iou` computes the Intersection-over-Union (IoU) of one reference box against a batch of candidate boxes.
- `nms` is the greedy non-maximum suppression loop built on `calculate_iou`.

A box is `[x_min, y_min, x_max, y_max]`. Coordinates, scores and the threshold are exact `real`s.

- `iou.dfy` (module `Iou`) covers `calculate_iou`.
  - `PairIou` is the overlap ratio of two boxes, with the zero-union guard.
  - `CalculateIou` follows the vectorised evaluation step by step: max/min of the coordinates, clamped width and height, the two areas, the union, and the guarded division. It is proved equal to `PairIou` element by element.
  - The lemmas cover disjoint boxes, range, self-overlap, symmetry and degenerate boxes.
- `indexing.dfy` (module `Indexing`) covers index sequences.
  - `Select` is boolean-mask indexing (`order[1:][mask]`).
  - `ArgsortDescending` stands in for `np.argsort(scores)[::-1]`.
  - `IsDescendingOrder` is the only property of the order that the rest of the model relies on.
- `nms.dfy` (module `Nms`) covers `nms`.
  - `Nms` is the method. It returns `[]` for no boxes, sorts the indices, and hands them to `SuppressAlong`.
  - `SuppressAlong` is the `while` loop. It appends the head of `order` to `keep`, stops when the head was the last index, and otherwise reassigns `order` to the survivors of one round.
  - `SuppressRound` is one round: `calculate_iou` against the rest, the `<=` mask, and the mask selection.
  - `Greedy` is the same selection written as a recursive function. The loop is proved against it.
  - The lemmas about `Greedy` take the overlap measure as a parameter `iou: (Box, Box) -> real`, so they hold for any measure; `Nms` instantiates it with `PairIou`.
  - `Nms`'s postconditions collect what the suppression guarantees: kept indices in range and distinct, scores non-increasing, the first kept index of maximal score, kept boxes pairwise at or below the threshold, every dropped index suppressed by a kept box with at least its score and an IoU above the threshold, and every index kept when nothing overlaps.
- `scenarios.dfy` (module `Scenarios`) proves the selection on concrete inputs: a duplicate box, an IoU exactly at the threshold, and a three-box scene.

## Model

| member | source | states |
|---|---|---|
| `Iou.PairIou` | exercises/nms.py:35-39 | where the union area is 0 the ratio is 0 and no division happens; otherwise ratio times union equals the intersection area |
| `Iou.CalculateIou` | exercises/nms.py:31-40 | exactly one value per candidate, in candidate order, each the pair-wise ratio of the reference with that candidate |
| `Iou.IntersectionArea` | exercises/nms.py:35 | the width and height are clamped at 0, so the intersection area is never negative, for any boxes |
| `Iou.ApartIouZero` | exercises/nms.py:31-39 | boxes separated along x or along y (touching counts) have intersection 0 and ratio 0 |
| `Iou.IouPositiveIffOverlap` | exercises/nms.py:31-39 | for well-formed boxes the ratio is positive if and only if the intersection rectangle has positive width and height |
| `Iou.IntersectionWithinUnion` | exercises/nms.py:35-38 | for well-formed boxes the intersection is at most each area and at most the union |
| `Iou.IouRange` | exercises/nms.py:35-39 | for well-formed boxes the ratio lies in [0, 1] |
| `Iou.IouSelf` | exercises/nms.py:31-39 | a box with positive width and height has ratio exactly 1 with itself |
| `Iou.IouSymmetric` | exercises/nms.py:31-39 | the ratio does not depend on which box is the reference |
| `Iou.DegenerateIouZero` | exercises/nms.py:36-39 | a well-formed zero-area box has ratio 0 with every well-formed box, as reference and as candidate |
| `Indexing.Select` | exercises/nms.py:82 | the mask selection keeps exactly the elements whose mask entry is true: no more elements than the input, every selected element comes from a true position, every true position is selected |
| `Indexing.SelectKeepsOrder` | exercises/nms.py:82 | selection keeps the relative order: of any two selected elements, the earlier one occurs in the input before the later one |
| `Indexing.SelectAll` | exercises/nms.py:82 | an all-true mask selects the whole sequence unchanged |
| `Indexing.SelectDistinct` | exercises/nms.py:82 | selection keeps indices in range and distinct |
| `Indexing.SelectSorted` | exercises/nms.py:81-82 | selection keeps the relative order, so an order sorted by descending score stays sorted |
| `Indexing.ArgsortDescending` | exercises/nms.py:73 | the result lists every index of `scores` exactly once, with scores non-increasing |
| `Nms.Survivors` | exercises/nms.py:80-82 | every survivor of a round is an index of the rest of the order; there are at most as many survivors as the rest has, and they are in range |
| `Nms.SurvivorsKeepOrder` | exercises/nms.py:82 | the survivors keep the relative order of the rest of the order: of any two survivors, the earlier one occurs in the rest before the later one |
| `Nms.SurvivorsExactly` | exercises/nms.py:81-82 | an index survives the round of the head if and only if it is in the rest of the order and its IoU with the head is at most the threshold; an IoU equal to the threshold survives |
| `Nms.Greedy` | exercises/nms.py:75-82 | kept indices come from the order and are in range, there are no more of them than the order has, and the head of a non-empty order is kept first; distinctness is `GreedyDistinctSorted` |
| `Nms.SuppressRound` | exercises/nms.py:80-82 | evaluating the IoU of the head against the boxes of the rest, masking with `<=` and selecting gives exactly the survivors of the round |
| `Nms.SuppressAlong` | exercises/nms.py:74-83 | the loop, with its early exit on a single remaining index, returns the greedy selection along the order it starts from; the invariant is that `keep` followed by the selection along the remaining order is the selection along the whole order |
| `Nms.Nms` | exercises/nms.py:68-83 | empty input gives `[]`; one box gives `[0]`; the indices are walked in a descending-score order and `keep` is the greedy selection along it; kept indices are in range, distinct, at most N and non-increasing in score; the first has maximal score; kept boxes pairwise have IoU at most the threshold; every index not kept is suppressed by a kept box with at least its score and IoU above the threshold; with no pair above the threshold every index is kept, in descending-score order |
| `Nms.GreedyDistinctSorted` | exercises/nms.py:73-82 | along a distinct, descending order the kept indices are distinct and non-increasing in score |
| `Nms.GreedyKeptApart` | exercises/nms.py:80-82 | for any two kept indices, the IoU of the earlier (as reference) with the later is at most the threshold |
| `Nms.GreedySuppressesOnlyOverlaps` | exercises/nms.py:76-82 | every index of the order that is not kept has a kept index with score at least its own whose IoU with it is above the threshold |
| `Nms.FirstKeptIsBest` | exercises/nms.py:73-77 | along a descending order of all indices, the first kept index has a maximal score |
| `Nms.GreedyWithoutOverlap` | exercises/nms.py:73-82 | when no two different boxes have IoU above the threshold, the selection is the whole order |
| `Scenarios.TwoBoxOrder` | exercises/nms.py:73 | with two different scores the descending order is forced: the higher score comes first |
| `Scenarios.DuplicateSuppressed` | exercises/nms.py:73-82 | of two identical non-degenerate boxes, the lower-scored one is suppressed for every threshold below 1 |
| `Scenarios.BoundaryKept` | exercises/nms.py:81-82 | a lower-scored box whose IoU equals the threshold exactly is kept |
| `Scenarios.SceneOrder` | exercises/nms.py:73 | scores 0.9, 0.8, 0.95 have the single descending order 2, 0, 1 |
| `Scenarios.SceneOverlap` | exercises/nms.py:31-39 | [0,0,10,10] and [1,1,11,11] have IoU 81/119, above 0.3 |
| `Scenarios.SceneGreedy` | exercises/nms.py:75-82 | along order 2, 0, 1 with threshold 0.3, box 2 suppresses nothing and box 0 suppresses box 1, for any measure with those overlaps |
| `Scenarios.SceneKeeps` | exercises/nms.py:68-83 | boxes [0,0,10,10], [1,1,11,11], [50,50,60,60] with scores 0.9, 0.8, 0.95 and threshold 0.3 keep `[2, 0]` |

`Iou.Area` (exercises/nms.py:36-37), `Iou.UnionArea` (exercises/nms.py:38) and `Nms.SurvivalMask` (the mask of exercises/nms.py:81) have no row of their own. Their meaning is stated through the rows above. The areas and the union are parts of `Iou.PairIou`, `Iou.IntersectionWithinUnion` and `Iou.CalculateIou`. The mask is what `Nms.SurvivorsExactly` characterises and `Nms.SuppressRound` is proved equal to.

## Left out

- The `areas` array (exercises/nms.py:72) is computed and never used, so it is not modelled.
- The `np.array` conversions and `astype(np.float64)` casts are not modelled. Boxes are a four-field datatype, so a box with fewer than four coordinates cannot be expressed.
- IEEE-754 double rounding is not modelled: arithmetic is exact over `real`. A ratio that rounds to either side of the threshold, and NaN or infinite coordinates, are outside the model.
- Nms: the order among equal scores is not claimed. `np.argsort` with its default sort is not stable. `Nms` returns, as a ghost, the descending order it walked and proves `keep` is the selection along that order. `ArgsortDescending` is an insertion sort standing in for the library sort; only `IsDescendingOrder` of its result is used.
- Nms: equal lengths of `boxes` and `scores` are a precondition. The source does not check them. With empty `boxes` it returns `[]` whatever the scores. With fewer scores than boxes it runs and never looks at the boxes past `len(scores)`, because the order ranges over the scores only. With more scores than boxes, and at least one box, it raises an indexing error. The model covers none of these mismatched cases.
- `calculate_iou` is modelled for a batch of candidates (`box2[:, k]`), which is how `nms` calls it. Its docstring promises a single float for two boxes, but with a one-dimensional `box2` the column indexing `box2[:, 0]` raises an error. That call form is not modelled.
