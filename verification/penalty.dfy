/**
 * `Crop._get_penalty` of both engine versions: how much of an area a
 * candidate crop window loses, divided by the area's priority. The current
 * engine divides exactly; the earlier one floors (Python 2 integer `/`).
 */
module Penalty {
  import opened Arith
  import opened Areas

  /** How the penalty area is divided by the priority. */
  datatype Division = TrueDivision | FloorDivision

  /** The window (x, y, x + w, y + h) contains the whole area. */
  predicate Encloses(a: Area, x: int, y: int, w: int, h: int) {
    a.x1 >= x && a.x2 <= x + w && a.y1 >= y && a.y2 <= y + h
  }

  /** The area lies strictly outside the window on some side. */
  predicate Excludes(a: Area, x: int, y: int, w: int, h: int) {
    a.x2 < x || a.x1 > x + w || a.y2 < y || a.y1 > y + h
  }

  function Min3(a: int, b: int, c: int): int {
    Min(Min(a, b), c)
  }

  /** The number of pixels of the area that the window at (x, y) of size w x h cuts away. */
  function PenaltyArea(a: Area, x: int, y: int, w: int, h: int): (p: int)
    ensures Encloses(a, x, y, w, h) ==> p == 0
    ensures !Encloses(a, x, y, w, h) && Excludes(a, x, y, w, h) ==> p == a.Size()
    ensures a.WellFormed() ==> 0 <= p <= a.Size()
    ensures a.WellFormed() ==> (p == 0 <==> Encloses(a, x, y, w, h))
  {
    if Encloses(a, x, y, w, h) then 0
    else if Excludes(a, x, y, w, h) then a.Size()
    else
      var kept := Min3(a.x2 - x, x + w - a.x1, a.Width()) * Min3(a.y2 - y, y + h - a.y1, a.Height());
      PartialOverlapBounds(a, x, y, w, h);
      a.Size() - kept
  }

  /** In the partial case each clamped side is between 0 and the area's side, and one falls short. */
  lemma PartialOverlapBounds(a: Area, x: int, y: int, w: int, h: int)
    requires !Encloses(a, x, y, w, h) && !Excludes(a, x, y, w, h)
    ensures a.WellFormed() ==>
      var kept := Min3(a.x2 - x, x + w - a.x1, a.Width()) * Min3(a.y2 - y, y + h - a.y1, a.Height());
      0 <= kept < a.Size()
  {
    if a.WellFormed() {
      var mw := Min3(a.x2 - x, x + w - a.x1, a.Width());
      var mh := Min3(a.y2 - y, y + h - a.y1, a.Height());
      assert 0 <= mw <= a.Width() && 0 <= mh <= a.Height();
      assert mw < a.Width() || mh < a.Height();
      ProductBelow(mw, mh, a.Width(), a.Height());
    }
  }

  lemma ProductBelow(mw: int, mh: int, aw: int, ah: int)
    requires 0 <= mw <= aw && 0 <= mh <= ah && aw > 0 && ah > 0
    requires mw < aw || mh < ah
    ensures 0 <= mw * mh < aw * ah
  {
    if mw < aw {
      assert mw * mh <= mw * ah;
      assert mw * ah < aw * ah;
    } else {
      assert mw * mh < mw * ah;
    }
  }

  /** One area's share of a window's penalty: the cut-away pixels divided by the priority. */
  function Contribution(div: Division, a: Area, x: int, y: int, w: int, h: int): (c: real)
    requires a.priority != 0
    ensures a.WellFormed() ==> 0.0 <= c <= (a.Size() as real) / (a.priority as real)
    ensures div == TrueDivision && a.WellFormed() ==> (c == 0.0 <==> Encloses(a, x, y, w, h))
  {
    var p := PenaltyArea(a, x, y, w, h);
    match div
    case TrueDivision =>
      var c := (p as real) / (a.priority as real);
      QuotientBounds(p, a.Size(), a.priority);
      c
    case FloorDivision =>
      var q := FloorDiv(p, a.priority);
      FloorBounds(p, a.Size(), a.priority, q);
      q as real
  }

  lemma QuotientBounds(p: int, s: int, pr: int)
    requires pr != 0
    ensures 0 <= p <= s && pr >= 1 ==>
      && 0.0 <= (p as real) / (pr as real) <= (s as real) / (pr as real)
      && ((p as real) / (pr as real) == 0.0 <==> p == 0)
  {
    if 0 <= p <= s && pr >= 1 {
      var r := pr as real;
      assert (p as real) / r * r == p as real;
      assert (s as real) / r * r == s as real;
    }
  }

  lemma FloorBounds(p: int, s: int, pr: int, q: int)
    requires pr != 0 && q == FloorDiv(p, pr)
    ensures 0 <= p <= s && pr >= 1 ==> 0.0 <= q as real <= (s as real) / (pr as real)
  {
    if 0 <= p <= s && pr >= 1 {
      assert q * pr <= p < q * pr + pr;
      var r := pr as real;
      assert (q as real) * r <= s as real;
      assert (s as real) / r * r == s as real;
    }
  }

  /** Every priority is non-zero, so every division is defined. */
  predicate Divisible(areas: seq<Area>) {
    forall i | 0 <= i < |areas| :: areas[i].priority != 0
  }

  predicate AllWellFormed(areas: seq<Area>) {
    forall i | 0 <= i < |areas| :: areas[i].WellFormed()
  }

  /** The full penalty of the window at (x, y): the sum of the contributions of all areas. */
  function Total(div: Division, areas: seq<Area>, x: int, y: int, w: int, h: int): real
    requires Divisible(areas)
  {
    if |areas| == 0 then 0.0
    else Total(div, areas[..|areas| - 1], x, y, w, h) + Contribution(div, areas[|areas| - 1], x, y, w, h)
  }

  /** Summing only a prefix of well-formed areas never exceeds the full penalty, which is non-negative. */
  lemma {:induction false} PrefixBelowTotal(div: Division, areas: seq<Area>, k: nat, x: int, y: int, w: int, h: int)
    requires Divisible(areas) && AllWellFormed(areas) && k <= |areas|
    ensures 0.0 <= Total(div, areas[..k], x, y, w, h) <= Total(div, areas, x, y, w, h)
    decreases |areas|
  {
    if |areas| > 0 {
      var init := areas[..|areas| - 1];
      if k == |areas| {
        assert areas[..k] == areas;
        PrefixBelowTotal(div, init, |init|, x, y, w, h);
        assert init[..|init|] == init;
      } else {
        assert areas[..k] == init[..k];
        PrefixBelowTotal(div, init, k, x, y, w, h);
      }
      var _ := Contribution(div, areas[|areas| - 1], x, y, w, h);
    }
  }

  /** With exact division, a window costs nothing exactly when it encloses every area. */
  lemma {:induction false} TotalZeroIffEnclosesAll(areas: seq<Area>, x: int, y: int, w: int, h: int)
    requires Divisible(areas) && AllWellFormed(areas)
    ensures Total(TrueDivision, areas, x, y, w, h) == 0.0 <==>
      forall i | 0 <= i < |areas| :: Encloses(areas[i], x, y, w, h)
    decreases |areas|
  {
    if |areas| > 0 {
      var init := areas[..|areas| - 1];
      TotalZeroIffEnclosesAll(init, x, y, w, h);
      PrefixBelowTotal(TrueDivision, init, |init|, x, y, w, h);
      assert init[..|init|] == init;
      var _ := Contribution(TrueDivision, areas[|areas| - 1], x, y, w, h);
      assert forall i | 0 <= i < |init| :: init[i] == areas[i];
    }
  }
}
