/**
 * Worked cases of the earlier engine: the sizes its tests expect, the
 * non-positive fallback, and a placement on which floor-divided penalties
 * choose a different offset from the current engine's exact ones.
 */
module LegacyExamples {
  import opened Wrappers
  import Arith
  import opened Areas
  import opened Penalty
  import opened Placement
  import opened Adjustments
  import opened Legacy

  const Square := Dims(100, 100)

  function Req(w: Option<int>, h: Option<int>): Request {
    Request(w, h, None, None)
  }

  lemma FitCases()
    ensures LegacyCalculate(LegacyFit, Req(Some(50), Some(50)), Square) == Dims(50, 50)
    ensures LegacyCalculate(LegacyFit, Req(Some(50), None), Square) == Dims(50, 50)
    ensures LegacyCalculate(LegacyFit, Req(None, Some(50)), Square) == Dims(50, 50)
    ensures LegacyCalculate(LegacyFit, Req(Some(60), Some(50)), Square) == Dims(50, 50)
    ensures LegacyCalculate(LegacyFit, Request(Some(200), None, None, Some(50)), Dims(200, 100)) == Dims(100, 50)
  {
  }

  lemma CropCases()
    ensures LegacyCalculate(LegacyCrop, Req(Some(50), Some(50)), Square) == Dims(50, 50)
    ensures LegacyCalculate(LegacyCrop, Req(Some(50), None), Square) == Dims(50, 100)
    ensures LegacyCalculate(LegacyCrop, Req(None, Some(50)), Square) == Dims(100, 50)
    ensures LegacyCalculate(LegacyCrop, Request(None, None, Some(30), None), Square) == Dims(30, 100)
  {
  }

  lemma FillCases()
    ensures LegacyCalculate(LegacyFill, Req(Some(50), Some(40)), Square) == Dims(50, 40)
    ensures LegacyCalculate(LegacyFill, Req(Some(50), None), Square) == Dims(50, 50)
    ensures LegacyCalculate(LegacyFill, Request(Some(100), None, None, Some(50)), Square) == Dims(100, 50)
    ensures LegacyCalculate(LegacyFill, Request(None, Some(100), Some(50), None), Square) == Dims(50, 100)
  {
  }

  /** A zero or negative request falls back to the source size. */
  lemma FallbackCases()
    ensures LegacyCalculate(LegacyCrop, Req(Some(0), Some(50)), Square) == Square
    ensures LegacyCalculate(LegacyFit, Req(Some(1), None), Dims(1000, 1)) == Dims(1000, 1)
  {
  }

  /** The area 1..3 x 0..1 of priority 3, in a 3x1 image cropped to 2x1. */
  const Strip := Area(1, 0, 3, 1, "", 3)

  /**
   * The offset 0 misses one cell of the area: an exact penalty of 1/3, but
   * 1 / 3 floors to 0, tying with the enclosing offset 1. The current engine
   * picks 1, the earlier one keeps the first of the tie, 0.
   */
  lemma FloorDivisionChangesPlacement()
    ensures IsFirstMin(TrueDivision, [Strip], 3, 1, 2, 1, 1, 0)
    ensures IsFirstMin(FloorDivision, [Strip], 3, 1, 2, 1, 0, 0)
  {
    forall a, b | InRange(3, 1, 2, 1, a, b) {
      ExactAtOffset(a, b);
    }
    forall a, b | InRange(3, 1, 2, 1, a, b) {
      FlooredAtOffset(a, b);
    }
  }

  /** Offset 1 encloses the area; offset 0, the only one before it, costs more. */
  lemma ExactAtOffset(a: int, b: int)
    requires InRange(3, 1, 2, 1, a, b)
    ensures Total(TrueDivision, [Strip], 1, 0, 2, 1) <= Total(TrueDivision, [Strip], a, b, 2, 1)
    ensures Before(a, b, 1, 0) ==> Total(TrueDivision, [Strip], 1, 0, 2, 1) < Total(TrueDivision, [Strip], a, b, 2, 1)
  {
    StripExactPenalties();
    assert b == 0 && (a == 0 || a == 1);
  }

  /** Floored, both offsets cost nothing, and none comes before offset 0. */
  lemma FlooredAtOffset(a: int, b: int)
    requires InRange(3, 1, 2, 1, a, b)
    ensures Total(FloorDivision, [Strip], a, b, 2, 1) == 0.0
    ensures !Before(a, b, 0, 0)
  {
    StripFlooredPenalties();
    assert b == 0 && (a == 0 || a == 1);
  }

  lemma StripExactPenalties()
    ensures Total(TrueDivision, [Strip], 1, 0, 2, 1) == 0.0
    ensures Total(TrueDivision, [Strip], 0, 0, 2, 1) > 0.0
  {
    assert [Strip][..0] == [];
    assert Encloses(Strip, 1, 0, 2, 1);
    assert !Encloses(Strip, 0, 0, 2, 1);
  }

  lemma StripFlooredPenalties()
    ensures Total(FloorDivision, [Strip], 1, 0, 2, 1) == 0.0
    ensures Total(FloorDivision, [Strip], 0, 0, 2, 1) == 0.0
  {
    assert [Strip][..0] == [];
    assert Contribution(FloorDivision, Strip, 1, 0, 2, 1) == 0.0 by {
      assert Encloses(Strip, 1, 0, 2, 1);
    }
    assert Contribution(FloorDivision, Strip, 0, 0, 2, 1) == 0.0 by {
      StripCutsOneCell();
      assert Arith.FloorDiv(1, 3) == 0;
    }
  }

  /** The window at offset 0 keeps one of the area's two cells. */
  lemma StripCutsOneCell()
    ensures PenaltyArea(Strip, 0, 0, 2, 1) == 1
  {
    assert !Encloses(Strip, 0, 0, 2, 1) && !Excludes(Strip, 0, 0, 2, 1);
    assert Strip.Size() == 2 && Strip.Width() == 2 && Strip.Height() == 1;
    assert Min3(Strip.x2 - 0, 0 + 2 - Strip.x1, Strip.Width()) == 1;
    assert Min3(Strip.y2 - 0, 0 + 1 - Strip.y1, Strip.Height()) == 1;
  }
}
