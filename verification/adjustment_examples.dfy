/**
 * Worked cases of the current engine: the sizes its unit tests expect, the
 * placement chosen around a single area, and the two inputs on which
 * `Fill.adjust` as written disagrees with `Fill.calculate`.
 */
module AdjustmentExamples {
  import Arith
  import opened Wrappers
  import opened Areas
  import opened Penalty
  import opened Placement
  import opened Adjustments

  function N(n: int): Option<Arg> {
    Some(Num(n))
  }

  const Square := Dims(100, 100)

  /** Fit keeps the square ratio and honours the smaller bound. */
  lemma FitCases()
    ensures Calculate(Fit(N(50), N(50)), Square, None) == Ok(Dims(50, 50))
    ensures Calculate(Fit(N(50), None), Square, None) == Ok(Dims(50, 50))
    ensures Calculate(Fit(None, N(50)), Square, None) == Ok(Dims(50, 50))
    ensures Calculate(Fit(N(60), N(50)), Square, None) == Ok(Dims(50, 50))
    ensures Calculate(Fit(Some(Null), Some(Null)), Dims(7, 0), None) == Ok(Dims(7, 0))
  {
  }

  /** Crop takes each requested dimension and keeps the other. */
  lemma CropCases()
    ensures Calculate(Crop(N(50), N(50)), Square, None) == Ok(Dims(50, 50))
    ensures Calculate(Crop(N(50), None), Square, None) == Ok(Dims(50, 100))
    ensures Calculate(Crop(None, N(50)), Square, None) == Ok(Dims(100, 50))
    ensures Calculate(Crop(N(500), None), Square, None) == Ok(Dims(100, 100))
  {
  }

  /** Fill returns both requested dimensions, or derives one and caps it. */
  lemma FillCases()
    ensures Calculate(Fill(N(50), N(50), None, None), Square, None) == Ok(Dims(50, 50))
    ensures Calculate(Fill(N(50), N(40), None, None), Square, None) == Ok(Dims(50, 40))
    ensures Calculate(Fill(N(50), None, None, None), Square, None) == Ok(Dims(50, 50))
    ensures Calculate(Fill(None, N(50), None, None), Square, None) == Ok(Dims(50, 50))
    ensures Calculate(Fill(N(50), None, None, N(200)), Square, None) == Ok(Dims(50, 50))
    ensures Calculate(Fill(None, N(50), N(200), None), Square, None) == Ok(Dims(50, 50))
    ensures Calculate(Fill(N(100), None, None, N(50)), Square, None) == Ok(Dims(100, 50))
    ensures Calculate(Fill(None, N(100), N(50), None), Square, None) == Ok(Dims(50, 100))
  {
  }

  /** Keyword values given as strings are converted with `int()`. */
  lemma FillStringCase()
    ensures Calculate(Fill(None, Some(Str("100")), Some(Str("50")), None), Square, None) == Ok(Dims(50, 100))
    ensures Calculate(Fill(None, Some(Str("1x")), None, None), Square, None) == Err(BadLiteral("1x"))
  {
    FillFromDigitStrings();
    FillFromBadLiteral();
  }

  lemma FillFromDigitStrings()
    ensures Calculate(Fill(None, Some(Str("100")), Some(Str("50")), None), Square, None) == Ok(Dims(50, 100))
  {
    Hundred();
    Fifty();
    FillByHeight(Str("100"), Str("50"), 100, 50, Square);
    HundredCappedAtFifty();
  }

  lemma HundredCappedAtFifty()
    ensures FillSize(None, Some(100), Some(50), None, Square) == Dims(50, 100)
  {
    assert Arith.TruncDiv(100 * 100, 100) == 100;
  }

  lemma Hundred()
    ensures ToInt(Str("100")) == Ok(100)
  {
    HundredString();
    Text.IntRoundTrip(100);
  }

  lemma HundredString()
    ensures Text.IntToString(100) == "100"
  {
    assert Text.NatDigits(1) == "1";
    assert Text.NatDigits(10) == "1" + "0";
    assert Text.NatDigits(100) == "10" + "0";
  }

  lemma Fifty()
    ensures ToInt(Str("50")) == Ok(50)
  {
    FiftyString();
    Text.IntRoundTrip(50);
  }

  lemma FiftyString()
    ensures Text.IntToString(50) == "50"
  {
    assert Text.NatDigits(5) == "5";
    assert Text.NatDigits(50) == "5" + "0";
  }

  /** A height with a maximum width, both converted, fills by height. */
  lemma FillByHeight(ha: Arg, mwa: Arg, h: int, mw: int, src: Dims)
    requires !ha.Null? && ToInt(ha) == Ok(h)
    requires !mwa.Null? && ToInt(mwa) == Ok(mw)
    requires src.height != 0
    ensures Calculate(Fill(None, Some(ha), Some(mwa), None), src, None) == Ok(FillSize(None, Some(h), Some(mw), None, src))
  {
    FillHeightWithCap(ha, mwa, h, mw, src);
    CalculateFill(None, Some(ha), Some(mwa), None, src);
  }

  lemma CalculateFill(wa: Option<Arg>, ha: Option<Arg>, mwa: Option<Arg>, mha: Option<Arg>, src: Dims)
    ensures Calculate(Fill(wa, ha, mwa, mha), src, None) == CalcFill(wa, ha, mwa, mha, src)
  {
  }

  lemma FillHeightWithCap(ha: Arg, mwa: Arg, h: int, mw: int, src: Dims)
    requires !ha.Null? && ToInt(ha) == Ok(h)
    requires !mwa.Null? && ToInt(mwa) == Ok(mw)
    requires src.height != 0
    ensures CalcFill(None, Some(ha), Some(mwa), None, src) == Ok(FillSize(None, Some(h), Some(mw), None, src))
  {
    assert OptInt(Some(mwa)) == Ok(Some(mw));
  }

  /** `int()` strips white space: a padded width string fits like the number itself. */
  lemma PaddedWidth(n: int, src: Dims)
    ensures Calculate(Fit(Some(Str(" " + Text.IntToString(n) + "\n")), None), src, None)
         == Calculate(Fit(N(n), None), src, None)
  {
    var a := Str(" " + Text.IntToString(n) + "\n");
    assert Text.AllSpace(" ") && Text.AllSpace("\n");
    Text.PaddedIntRoundTrip(" ", n, "\n");
    assert ToInt(a) == Ok(n);
    assert OptInt(Some(a)) == OptInt(N(n)) == Ok(Some(n));
    assert CalcFit(Some(a), None, src) == CalcFit(N(n), None, src);
  }

  /** A ratio "1.5:1" is read as 3/2 exactly: a 300x100 image crops to 150x100. */
  lemma DecimalRatioCrop()
    ensures Calculate(RatioCrop(Some(Str("1.5:1"))), Dims(300, 100), None) == Ok(Dims(150, 100))
  {
    var src := Dims(300, 100);
    RatioThreeHalves();
    assert !Wider(15, 10, src);
    assert RatioSize(15, 10, src) == Dims(150, 100);
    RatioCropReads(Str("1.5:1"), src, (15, 10));
  }

  /** A ratio read as `q` crops by `RatioSize`. */
  lemma RatioCropReads(a: Arg, src: Dims, q: (int, int))
    requires a.Str? && ParseRatio(a) == Ok(q) && src.height != 0 && q.1 != 0 && !(Wider(q.0, q.1, src) && q.0 == 0)
    ensures Calculate(RatioCrop(Some(a)), src, None) == Ok(RatioSize(q.0, q.1, src))
  {
  }

  lemma RatioThreeHalves()
    ensures ParseRatio(Str("1.5:1")) == Ok((15, 10))
  {
    var w, h := "1.5", "1";
    OneAndAHalf();
    OneAsDecimal();
    NoColons();
    RatioOfDecimals(w, h);
    ThreeHalvesScaled();
    RatioJoined();
  }

  lemma ThreeHalvesScaled()
    ensures Scaled(Text.Decimal(15, 1), Text.Decimal(1, 0)) == (15, 10)
  {
    assert Text.Pow10(0) == 1;
    assert Text.Pow10(1) == 10;
  }

  lemma NoColons()
    ensures ':' !in "1.5" && ':' !in "1"
  {
  }

  lemma RatioJoined()
    ensures "1.5" + ":" + "1" == "1.5:1"
  {
  }

  lemma OneAndAHalf()
    ensures Text.ParseDecimal("1.5") == Some(Text.Decimal(15, 1))
  {
    OneAndAHalfStripped();
    OneAndAHalfHasPoint();
    OneAndAHalfDigits();
  }

  lemma OneAndAHalfStripped()
    ensures Text.Strip("1.5") == "1.5"
  {
    Text.StripPlain("1.5");
  }

  lemma OneAndAHalfHasPoint()
    ensures !Text.AllDigits("1.5")
  {
    assert "1.5"[1] == '.';
  }

  lemma OneAndAHalfDigits()
    ensures Text.ParseUnsignedDecimal("1.5") == Some(Text.Decimal(15, 1))
  {
    Text.SplitJoin(["1", "5"], '.');
    assert Text.Join(["1", "5"], '.') == "1.5";
    var parts := Text.Split("1.5", '.');
    assert parts == ["1", "5"];
    assert parts[0] + parts[1] == "15";
    assert Text.DigitsValue("15") == 15;
  }

  lemma OneAsDecimal()
    ensures Text.ParseDecimal("1") == Some(Text.Decimal(1, 0))
  {
    Text.IntRoundTrip(1);
    assert Text.IntToString(1) == "1";
  }

  lemma FillFromBadLiteral()
    ensures Calculate(Fill(None, Some(Str("1x")), None, None), Square, None) == Err(BadLiteral("1x"))
  {
  }

  /** RatioCrop keeps the full side that the ratio allows. */
  lemma RatioCropCases()
    ensures Calculate(RatioFor(Dims(2, 1)), Square, None) == Ok(Dims(100, 50))
    ensures Calculate(RatioFor(Dims(1, 2)), Square, None) == Ok(Dims(50, 100))
    ensures Calculate(RatioFor(Dims(3, 0)), Square, None) == Err(ZeroDivision)
    ensures Calculate(RatioCrop(None), Dims(10, 0), None) == Err(ZeroDivision)
  {
    WideRatioCrop();
    TallRatioCrop();
    RatioForZero(Dims(3, 0), Square);
    EmptySourceRatioCrop();
  }

  lemma WideRatioCrop()
    ensures Calculate(RatioFor(Dims(2, 1)), Square, None) == Ok(Dims(100, 50))
  {
    RatioForSucceeds(Dims(2, 1), Square);
    TwoToOne();
  }

  lemma TwoToOne()
    ensures RatioSize(2, 1, Square) == Dims(100, 50)
  {
    assert Wider(2, 1, Square);
  }

  lemma TallRatioCrop()
    ensures Calculate(RatioFor(Dims(1, 2)), Square, None) == Ok(Dims(50, 100))
  {
    RatioForSucceeds(Dims(1, 2), Square);
  }

  lemma EmptySourceRatioCrop()
    ensures Calculate(RatioCrop(None), Dims(10, 0), None) == Err(ZeroDivision)
  {
  }

  /** Only the four offsets 20..21 x 45..46 enclose the area 21..70 x 46..95. */
  lemma EnclosingOffsets(x: int, y: int)
    ensures Encloses(NewArea(21, 46, 70, 95), x, y, 50, 50) <==> 20 <= x <= 21 && 45 <= y <= 46
  {
  }

  /**
   * A 50x50 crop of a 100x100 image around the area 21..70 x 46..95 is
   * placed at (20, 45): the first of the four enclosing offsets.
   */
  lemma CropAroundArea(x: int, y: int)
    requires IsFirstMin(TrueDivision, [NewArea(21, 46, 70, 95)], 100, 100, 50, 50, x, y)
    ensures x == 20 && y == 45
  {
    var areas := [NewArea(21, 46, 70, 95)];
    assert AllWellFormed(areas);
    TotalZeroIffEnclosesAll(areas, 20, 45, 50, 50);
    EnclosingOffsets(20, 45);
    assert IsFirstMin(TrueDivision, areas, 100, 100, 50, 50, 20, 45) by {
      forall a, b | InRange(100, 100, 50, 50, a, b)
        ensures Total(TrueDivision, areas, 20, 45, 50, 50) <= Total(TrueDivision, areas, a, b, 50, 50)
      {
        PrefixBelowTotal(TrueDivision, areas, 0, a, b, 50, 50);
      }
      forall a, b | InRange(100, 100, 50, 50, a, b) && Before(a, b, 20, 45)
        ensures Total(TrueDivision, areas, 20, 45, 50, 50) < Total(TrueDivision, areas, a, b, 50, 50)
      {
        PrefixBelowTotal(TrueDivision, areas, 0, a, b, 50, 50);
        TotalZeroIffEnclosesAll(areas, a, b, 50, 50);
        EnclosingOffsets(a, b);
      }
    }
    FirstMinUnique(TrueDivision, areas, 100, 100, 50, 50, x, y, 20, 45);
  }

  /**
   * `Fill(width=3, height=4)` on a 100x5 image: `calculate` promises 3x4,
   * but the ratio crop leaves 3x5 and `Fit(3, 4)` then rounds 4 * 3/5 to 2.
   */
  lemma FillAsWrittenShrinks()
    ensures Calculate(Fill(N(3), N(4), None, None), Dims(100, 5), None) == Ok(Dims(3, 4))
    ensures FillAsWrittenDims(Fill(N(3), N(4), None, None), Dims(100, 5)) == Ok(Dims(2, 4))
  {
    SmallFillCalculates();
    SmallFillRatioCrop();
    SmallFillFit();
  }

  lemma SmallFillCalculates()
    ensures Calculate(Fill(N(3), N(4), None, None), Dims(100, 5), None) == Ok(Dims(3, 4))
  {
  }

  /** The 3:4 crop of a 100x5 image is 3x5. */
  lemma SmallFillRatioCrop()
    ensures Calculate(RatioFor(Dims(3, 4)), Dims(100, 5), None) == Ok(Dims(3, 5))
  {
    RatioForSucceeds(Dims(3, 4), Dims(100, 5));
    assert RatioSize(3, 4, Dims(100, 5)) == Dims(3, 5);
  }

  /** Fitting the 3x5 crop into 3x4 scales it by 4/5, rounding the width 2.4 to 2. */
  lemma SmallFillFit()
    ensures Calculate(FitFor(Dims(3, 4)), Dims(3, 5), None) == Ok(Dims(2, 4))
  {
  }

  /**
   * `Fill(width=100, height=1)` on a 1x100 image: the ratio crop leaves a
   * 1x0 image, and Fit then divides by its zero height.
   */
  lemma FillAsWrittenDividesByZero()
    ensures Calculate(Fill(N(100), N(1), None, None), Dims(1, 100), None) == Ok(Dims(100, 1))
    ensures FillAsWrittenDims(Fill(N(100), N(1), None, None), Dims(1, 100)) == Err(ZeroDivision)
  {
    WideFillCalculates();
    WideFillRatioCropIsEmpty();
  }

  lemma WideFillCalculates()
    ensures Calculate(Fill(N(100), N(1), None, None), Dims(1, 100), None) == Ok(Dims(100, 1))
  {
  }

  lemma WideFillRatioCropIsEmpty()
    ensures FillAsWrittenDims(Fill(N(100), N(1), None, None), Dims(1, 100)) == Err(ZeroDivision)
  {
    WideFillCalculates();
    WideRatioCropOfTallImage();
    FitOfEmptyCrop();
  }

  /** The 100:1 crop of a 1x100 image is 1 pixel wide and 0 high. */
  lemma WideRatioCropOfTallImage()
    ensures Calculate(RatioFor(Dims(100, 1)), Dims(1, 100), None) == Ok(Dims(1, 0))
  {
    RatioForSucceeds(Dims(100, 1), Dims(1, 100));
    assert RatioSize(100, 1, Dims(1, 100)) == Dims(1, 0);
  }

  /** Fitting a zero-height image divides by its height. */
  lemma FitOfEmptyCrop()
    ensures Calculate(FitFor(Dims(100, 1)), Dims(1, 0), None) == Err(ZeroDivision)
  {
  }
}
