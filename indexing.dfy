/** Sequences of box indices: the predicates that describe an order of
    indices by score, boolean-mask selection (`xs[mask]`) and the descending
    argsort that produces the initial order. */
module Indexing {

  /** Every index is below `n`. */
  predicate InRange(xs: seq<nat>, n: nat) {
    forall k :: 0 <= k < |xs| ==> xs[k] < n
  }

  /** No index appears twice. */
  predicate Distinct(xs: seq<nat>) {
    forall p, q :: 0 <= p < q < |xs| ==> xs[p] != xs[q]
  }

  /** Scores never increase along `xs`. */
  predicate SortedByScore(xs: seq<nat>, scores: seq<real>)
    requires InRange(xs, |scores|)
  {
    forall p, q :: 0 <= p < q < |xs| ==> scores[xs[q]] <= scores[xs[p]]
  }

  /** `order` lists every index of `scores` exactly once, highest score
      first. Among equal scores any order is allowed. */
  predicate IsDescendingOrder(order: seq<nat>, scores: seq<real>) {
    && |order| == |scores|
    && InRange(order, |scores|)
    && Distinct(order)
    && (forall x: nat :: x < |scores| ==> x in order)
    && SortedByScore(order, scores)
  }

  // ---------------------------------------------------------------------
  // Boolean-mask selection
  // ---------------------------------------------------------------------

  /** The elements of `xs` whose mask entry is true, in their original
      relative order. */
  function Select<T(==)>(xs: seq<T>, mask: seq<bool>): (r: seq<T>)
    requires |mask| == |xs|
    ensures |r| <= |xs|
    ensures forall x :: x in r ==> exists k :: 0 <= k < |xs| && mask[k] && xs[k] == x
    ensures forall k :: 0 <= k < |xs| && mask[k] ==> xs[k] in r
  {
    if |xs| == 0 then []
    else
      var rest := Select(xs[1..], mask[1..]);
      assert forall x :: x in rest ==> exists k :: 1 <= k < |xs| && mask[k] && xs[k] == x by {
        forall x | x in rest ensures exists k :: 1 <= k < |xs| && mask[k] && xs[k] == x {
          var j :| 0 <= j < |xs| - 1 && mask[1..][j] && xs[1..][j] == x;
          assert mask[j + 1] && xs[j + 1] == x;
        }
      }
      if mask[0] then [xs[0]] + rest else rest
  }

  /** A mask that is all true selects everything. */
  lemma {:induction false} SelectAll<T>(xs: seq<T>, mask: seq<bool>)
    requires |mask| == |xs|
    requires forall k :: 0 <= k < |mask| ==> mask[k]
    ensures Select(xs, mask) == xs
  {
    if |xs| > 0 {
      SelectAll(xs[1..], mask[1..]);
      assert xs == [xs[0]] + xs[1..];
    }
  }

  /** `u` occurs in `xs` at a position before an occurrence of `v`. */
  ghost predicate OccursBefore<T>(xs: seq<T>, u: T, v: T) {
    exists a, b :: 0 <= a < b < |xs| && xs[a] == u && xs[b] == v
  }

  /** Selection keeps the relative order: of any two selected elements, the
      earlier one occurs in `xs` before the later one. */
  lemma {:induction false} SelectKeepsOrder<T>(xs: seq<T>, mask: seq<bool>)
    requires |mask| == |xs|
    ensures forall p, q :: 0 <= p < q < |Select(xs, mask)| ==>
              OccursBefore(xs, Select(xs, mask)[p], Select(xs, mask)[q])
  {
    if |xs| > 0 {
      var r := Select(xs, mask);
      var xs', mask' := xs[1..], mask[1..];
      var rest := Select(xs', mask');
      SelectKeepsOrder(xs', mask');
      forall p, q | 0 <= p < q < |r| ensures OccursBefore(xs, r[p], r[q]) {
        if mask[0] && p == 0 {
          assert r == [xs[0]] + rest;
          assert r[q] == rest[q - 1] && rest[q - 1] in rest;
          var b :| 0 <= b < |xs'| && mask'[b] && xs'[b] == rest[q - 1];
          assert xs[0] == r[p] && xs[b + 1] == r[q];
        } else {
          var p', q' := if mask[0] then p - 1 else p, if mask[0] then q - 1 else q;
          assert r[p] == rest[p'] && r[q] == rest[q'];
          assert OccursBefore(xs', rest[p'], rest[q']);
          var a, b :| 0 <= a < b < |xs'| && xs'[a] == rest[p'] && xs'[b] == rest[q'];
          assert xs[a + 1] == r[p] && xs[b + 1] == r[q];
        }
      }
    }
  }

  /** Selection keeps indices in range and keeps them distinct. */
  lemma {:induction false} SelectDistinct(xs: seq<nat>, mask: seq<bool>, n: nat)
    requires |mask| == |xs| && InRange(xs, n) && Distinct(xs)
    ensures InRange(Select(xs, mask), n) && Distinct(Select(xs, mask))
  {
    var r := Select(xs, mask);
    forall k | 0 <= k < |r| ensures r[k] < n {
      assert r[k] in r;
    }
    if |xs| > 0 {
      SelectDistinct(xs[1..], mask[1..], n);
      var rest := Select(xs[1..], mask[1..]);
      if mask[0] {
        forall q | 0 <= q < |rest| ensures rest[q] != xs[0] {
          assert rest[q] in rest;
          var j :| 0 <= j < |xs| - 1 && mask[1..][j] && xs[1..][j] == rest[q];
          assert xs[j + 1] == rest[q];
        }
      }
    }
  }

  /** Selection keeps the scores non-increasing. */
  lemma {:induction false} SelectSorted(xs: seq<nat>, mask: seq<bool>, scores: seq<real>)
    requires |mask| == |xs| && InRange(xs, |scores|) && SortedByScore(xs, scores)
    ensures InRange(Select(xs, mask), |scores|) && SortedByScore(Select(xs, mask), scores)
  {
    var r := Select(xs, mask);
    forall k | 0 <= k < |r| ensures r[k] < |scores| {
      assert r[k] in r;
    }
    if |xs| > 0 {
      SelectSorted(xs[1..], mask[1..], scores);
      var rest := Select(xs[1..], mask[1..]);
      if mask[0] {
        forall q | 0 <= q < |rest| ensures scores[rest[q]] <= scores[xs[0]] {
          assert rest[q] in rest;
          var j :| 0 <= j < |xs| - 1 && mask[1..][j] && xs[1..][j] == rest[q];
          assert xs[j + 1] == rest[q];
        }
      }
    }
  }

  // ---------------------------------------------------------------------
  // Descending argsort
  // ---------------------------------------------------------------------

  /** Insert index `i` into an order that is sorted by score, in front of the
      first index whose score is not above that of `i`. */
  function Insert(order: seq<nat>, i: nat, scores: seq<real>): (r: seq<nat>)
    requires i < |scores| && InRange(order, |scores|)
    ensures |r| == |order| + 1
    ensures forall x :: x in r <==> x == i || x in order
  {
    if |order| == 0 then [i]
    else if scores[order[0]] <= scores[i] then [i] + order
    else [order[0]] + Insert(order[1..], i, scores)
  }

  /** Insertion keeps an order sorted by score. */
  lemma {:induction false} InsertSorted(order: seq<nat>, i: nat, scores: seq<real>)
    requires i < |scores| && InRange(order, |scores|) && SortedByScore(order, scores)
    ensures InRange(Insert(order, i, scores), |scores|)
    ensures SortedByScore(Insert(order, i, scores), scores)
  {
    var r := Insert(order, i, scores);
    forall k | 0 <= k < |r| ensures r[k] < |scores| {
      assert r[k] in r;
      if r[k] != i {
        var j :| 0 <= j < |order| && order[j] == r[k];
      }
    }
    if |order| > 0 && scores[i] < scores[order[0]] {
      var head, tail := order[0], order[1..];
      assert SortedByScore(tail, scores) by {
        forall p, q | 0 <= p < q < |tail| ensures scores[tail[q]] <= scores[tail[p]] {
          assert tail[p] == order[p + 1] && tail[q] == order[q + 1];
        }
      }
      InsertSorted(tail, i, scores);
      var rest := Insert(tail, i, scores);
      assert r == [head] + rest;
      forall p, q | 0 <= p < q < |r| ensures scores[r[q]] <= scores[r[p]] {
        if p == 0 {
          assert rest[q - 1] in rest;
          if rest[q - 1] != i {
            var j :| 0 <= j < |tail| && tail[j] == rest[q - 1];
            assert order[j + 1] == rest[q - 1];
          }
        } else {
          assert r[p] == rest[p - 1] && r[q] == rest[q - 1];
        }
      }
    } else if |order| > 0 {
      assert r == [i] + order;
      forall p, q | 0 <= p < q < |r| ensures scores[r[q]] <= scores[r[p]] {
        if p == 0 {
          assert r[q] == order[q - 1];
          assert scores[order[q - 1]] <= scores[order[0]];
        } else {
          assert r[p] == order[p - 1] && r[q] == order[q - 1];
        }
      }
    }
  }

  /** Insertion of a new index keeps the indices distinct. */
  lemma {:induction false} InsertDistinct(order: seq<nat>, i: nat, scores: seq<real>)
    requires i < |scores| && InRange(order, |scores|) && Distinct(order) && i !in order
    ensures Distinct(Insert(order, i, scores))
  {
    if |order| > 0 && scores[i] < scores[order[0]] {
      InsertDistinct(order[1..], i, scores);
      assert order[0] !in order[1..];
    }
  }

  /** The indices below `n`, highest score first. */
  function ArgsortPrefix(scores: seq<real>, n: nat): (order: seq<nat>)
    requires n <= |scores|
    ensures |order| == n && InRange(order, n) && Distinct(order)
    ensures forall x: nat :: x < n ==> x in order
    ensures InRange(order, |scores|) && SortedByScore(order, scores)
  {
    if n == 0 then []
    else
      var prefix := ArgsortPrefix(scores, n - 1);
      var order := Insert(prefix, n - 1, scores);
      InsertSorted(prefix, n - 1, scores);
      InsertDistinct(prefix, n - 1, scores);
      assert forall k :: 0 <= k < |order| ==> order[k] < n by {
        forall k | 0 <= k < |order| ensures order[k] < n {
          assert order[k] in order;
          if order[k] != n - 1 {
            var j :| 0 <= j < |prefix| && prefix[j] == order[k];
          }
        }
      }
      order
  }

  /** The indices of `scores` sorted by descending score. Equal scores may
      come in either order: callers rely on `IsDescendingOrder` only. */
  function ArgsortDescending(scores: seq<real>): (order: seq<nat>)
    ensures IsDescendingOrder(order, scores)
  {
    ArgsortPrefix(scores, |scores|)
  }
}
