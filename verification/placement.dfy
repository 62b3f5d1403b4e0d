/**
 * The crop-placement search of `Crop.adjust` (both engine versions): every
 * offset of a w x h window inside a W x H image is scored, x in the outer
 * loop and y in the inner loop, and the first offset of least penalty wins.
 */
module Placement {
  import opened Wrappers
  import opened Areas
  import opened Penalty

  /** (a, b) is scanned before (c, d): x is the outer loop, y the inner one. */
  predicate Before(a: int, b: int, c: int, d: int) {
    a < c || (a == c && b < d)
  }

  /** (x, y) is a valid top-left corner of a w x h window inside a W x H image. */
  predicate InRange(W: int, H: int, w: int, h: int, x: int, y: int) {
    0 <= x <= W - w && 0 <= y <= H - h
  }

  /**
   * (x, y) is the offset the search must choose: in range, of least total
   * penalty, and strictly cheaper than every offset scanned before it.
   */
  ghost predicate IsFirstMin(div: Division, areas: seq<Area>, W: int, H: int, w: int, h: int, x: int, y: int)
    requires Divisible(areas)
  {
    && InRange(W, H, w, h, x, y)
    && (forall a, b | InRange(W, H, w, h, a, b) ::
          Total(div, areas, x, y, w, h) <= Total(div, areas, a, b, w, h))
    && (forall a, b | InRange(W, H, w, h, a, b) && Before(a, b, x, y) ::
          Total(div, areas, x, y, w, h) < Total(div, areas, a, b, w, h))
  }

  /** The first minimum restricted to the offsets scanned before (i, j). */
  ghost predicate FirstMinSoFar(div: Division, areas: seq<Area>, W: int, H: int, w: int, h: int,
                                x: int, y: int, i: int, j: int)
    requires Divisible(areas)
  {
    && InRange(W, H, w, h, x, y) && Before(x, y, i, j)
    && (forall a, b | InRange(W, H, w, h, a, b) && Before(a, b, i, j) ::
          Total(div, areas, x, y, w, h) <= Total(div, areas, a, b, w, h))
    && (forall a, b | InRange(W, H, w, h, a, b) && Before(a, b, x, y) ::
          Total(div, areas, x, y, w, h) < Total(div, areas, a, b, w, h))
  }

  /** There is only one first minimum. */
  lemma FirstMinUnique(div: Division, areas: seq<Area>, W: int, H: int, w: int, h: int,
                       x: int, y: int, x': int, y': int)
    requires Divisible(areas)
    requires IsFirstMin(div, areas, W, H, w, h, x, y)
    requires IsFirstMin(div, areas, W, H, w, h, x', y')
    ensures x == x' && y == y'
  {
  }

  /**
   * The inner loop over areas for one offset, with the source's early exit
   * once the running sum exceeds the best penalty so far (`bound`).
   */
  method ScorePruned(div: Division, areas: seq<Area>, x: int, y: int, w: int, h: int, bound: Option<real>)
    returns (penalty: real)
    requires Divisible(areas)
    ensures (bound.None? || penalty <= bound.value) ==> penalty == Total(div, areas, x, y, w, h)
    ensures AllWellFormed(areas) && bound.Some? && penalty > bound.value ==>
      Total(div, areas, x, y, w, h) > bound.value
  {
    penalty := 0.0;
    var k := 0;
    while k < |areas|
      invariant 0 <= k <= |areas|
      invariant penalty == Total(div, areas[..k], x, y, w, h)
    {
      penalty := penalty + Contribution(div, areas[k], x, y, w, h);
      k := k + 1;
      assert areas[..k][..k - 1] == areas[..k - 1];
      if bound.Some? && penalty > bound.value {
        if AllWellFormed(areas) {
          PrefixBelowTotal(div, areas, k, x, y, w, h);
        }
        break;
      }
    }
    if k == |areas| {
      assert areas[..k] == areas;
    }
  }

  /** The first offset scanned is the first minimum of the offsets scanned so far. */
  lemma ScanFirst(div: Division, areas: seq<Area>, W: int, H: int, w: int, h: int)
    requires Divisible(areas) && InRange(W, H, w, h, 0, 0)
    ensures FirstMinSoFar(div, areas, W, H, w, h, 0, 0, 0, 1)
  {
  }

  /** An offset no cheaper than the best so far leaves the best in place. */
  lemma ScanKeep(div: Division, areas: seq<Area>, W: int, H: int, w: int, h: int, x: int, y: int, i: int, j: int)
    requires Divisible(areas) && InRange(W, H, w, h, i, j)
    requires FirstMinSoFar(div, areas, W, H, w, h, x, y, i, j)
    requires Total(div, areas, x, y, w, h) <= Total(div, areas, i, j, w, h)
    ensures FirstMinSoFar(div, areas, W, H, w, h, x, y, i, j + 1)
  {
  }

  /** A strictly cheaper offset becomes the best so far. */
  lemma ScanTake(div: Division, areas: seq<Area>, W: int, H: int, w: int, h: int, x: int, y: int, i: int, j: int)
    requires Divisible(areas) && InRange(W, H, w, h, i, j)
    requires FirstMinSoFar(div, areas, W, H, w, h, x, y, i, j)
    requires Total(div, areas, i, j, w, h) < Total(div, areas, x, y, w, h)
    ensures FirstMinSoFar(div, areas, W, H, w, h, i, j, i, j + 1)
  {
  }

  /** Finishing column i of the scan is the same as starting column i + 1. */
  lemma ScanNextColumn(div: Division, areas: seq<Area>, W: int, H: int, w: int, h: int, x: int, y: int, i: int)
    requires Divisible(areas)
    requires FirstMinSoFar(div, areas, W, H, w, h, x, y, i, H - h + 1)
    ensures FirstMinSoFar(div, areas, W, H, w, h, x, y, i + 1, 0)
  {
  }

  /** After the last column, the best so far is the first minimum overall. */
  lemma ScanDone(div: Division, areas: seq<Area>, W: int, H: int, w: int, h: int, x: int, y: int)
    requires Divisible(areas)
    requires FirstMinSoFar(div, areas, W, H, w, h, x, y, W - w + 1, 0)
    ensures IsFirstMin(div, areas, W, H, w, h, x, y)
  {
  }

  /**
   * One column of the scan: every offset (i, j) from top to bottom, keeping
   * the first strictly cheaper one.
   */
  method ScanColumn(div: Division, areas: seq<Area>, W: int, H: int, w: int, h: int, i: int,
                    best: Option<real>, x0: int, y0: int)
    returns (minPenalty: Option<real>, x: int, y: int)
    requires Divisible(areas)
    requires 0 <= i <= W - w && h <= H
    requires best.None? <==> i == 0
    requires i > 0 ==> InRange(W, H, w, h, x0, y0) && x0 < i
    requires i > 0 && AllWellFormed(areas) ==>
      && best.value == Total(div, areas, x0, y0, w, h)
      && FirstMinSoFar(div, areas, W, H, w, h, x0, y0, i, 0)
    ensures minPenalty.Some? && InRange(W, H, w, h, x, y) && x <= i
    ensures AllWellFormed(areas) ==>
      && minPenalty.value == Total(div, areas, x, y, w, h)
      && FirstMinSoFar(div, areas, W, H, w, h, x, y, i + 1, 0)
  {
    minPenalty, x, y := best, x0, y0;
    var j := 0;
    while j < H - h + 1
      invariant 0 <= j <= H - h + 1
      invariant minPenalty.None? <==> i == 0 && j == 0
      invariant (i > 0 || j > 0) ==> InRange(W, H, w, h, x, y) && Before(x, y, i, j)
      invariant (i > 0 || j > 0) && AllWellFormed(areas) ==>
        && minPenalty.value == Total(div, areas, x, y, w, h)
        && FirstMinSoFar(div, areas, W, H, w, h, x, y, i, j)
    {
      var penalty := ScorePruned(div, areas, i, j, w, h, minPenalty);
      if minPenalty.None? || penalty < minPenalty.value {
        if AllWellFormed(areas) {
          if minPenalty.None? {
            ScanFirst(div, areas, W, H, w, h);
          } else {
            ScanTake(div, areas, W, H, w, h, x, y, i, j);
          }
        }
        minPenalty := Some(penalty);
        x, y := i, j;
      } else if AllWellFormed(areas) {
        ScanKeep(div, areas, W, H, w, h, x, y, i, j);
      }
      j := j + 1;
    }
    if AllWellFormed(areas) {
      ScanNextColumn(div, areas, W, H, w, h, x, y, i);
    }
  }

  /**
   * The exhaustive search: returns the offset of the crop window. With
   * well-formed areas it is the first minimum of the total penalty, so the
   * early exit of `ScorePruned` never changes the choice.
   */
  method Search(div: Division, areas: seq<Area>, W: int, H: int, w: int, h: int) returns (x: int, y: int)
    requires Divisible(areas)
    requires w <= W && h <= H
    ensures InRange(W, H, w, h, x, y)
    ensures AllWellFormed(areas) ==> IsFirstMin(div, areas, W, H, w, h, x, y)
  {
    var minPenalty: Option<real> := None;
    x, y := 0, 0;
    var i := 0;
    while i < W - w + 1
      invariant 0 <= i <= W - w + 1
      invariant minPenalty.None? <==> i == 0
      invariant i > 0 ==> InRange(W, H, w, h, x, y) && x < i
      invariant i > 0 && AllWellFormed(areas) ==>
        && minPenalty.value == Total(div, areas, x, y, w, h)
        && FirstMinSoFar(div, areas, W, H, w, h, x, y, i, 0)
    {
      minPenalty, x, y := ScanColumn(div, areas, W, H, w, h, i, minPenalty, x, y);
      i := i + 1;
    }
    if AllWellFormed(areas) {
      ScanDone(div, areas, W, H, w, h, x, y);
    }
  }
}
