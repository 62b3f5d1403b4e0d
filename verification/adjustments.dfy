/**
 * The current adjustment engine (daguerre/adjustments.py): the variants Fit,
 * Crop, RatioCrop, NamedCrop and Fill, each with `calculate` (the size of the
 * result) and `adjust` (the image operations that produce it). An image is
 * represented by its size only, so `adjust` yields the crop boxes and resize
 * targets it would hand to the imaging library.
 */
module Adjustments {
  import opened Wrappers
  import opened Arith
  import Text
  import opened Areas
  import opened Penalty
  import opened Placement

  /** A `(width, height)` pair. */
  datatype Dims = Dims(width: int, height: int)

  /** A keyword argument's value: Python `None`, an integer, or a string. */
  datatype Arg = Null | Num(n: int) | Str(s: string)

  /** The five registered adjustment classes. */
  datatype Kind = FitKind | CropKind | RatioCropKind | NamedCropKind | FillKind

  /**
   * An adjustment and its keyword arguments. A field is `None` when the
   * keyword was not passed and `Some(Null)` when it was passed as `None`.
   */
  datatype Adjustment =
    | Fit(width: Option<Arg>, height: Option<Arg>)
    | Crop(width: Option<Arg>, height: Option<Arg>)
    | RatioCrop(ratio: Option<Arg>)
    | NamedCrop(name: Option<Arg>)
    | Fill(width: Option<Arg>, height: Option<Arg>, maxWidth: Option<Arg>, maxHeight: Option<Arg>)

  /** What `calculate` or `adjust` can raise. */
  datatype CalcError =
    | ZeroDivision        // a ratio with a zero denominator
    | BadLiteral(s: string) // `int()` / `float()` of a malformed string
    | MalformedRatio      // a ratio that is not a "<width>:<height>" string
    | MissingName         // NamedCrop used without its `name` keyword
    | NegativeSize        // the imaging library refuses an image with a negative side

  // ------------------------------------------------------------------ registry

  /** The registry key of each class: its lower-cased class name. */
  function Slug(k: Kind): string {
    match k
    case FitKind => "fit"
    case CropKind => "crop"
    case RatioCropKind => "ratiocrop"
    case NamedCropKind => "namedcrop"
    case FillKind => "fill"
  }

  /** `registry.get(slug)`: the class registered under `slug`, if any. */
  function Lookup(slug: string): (k: Option<Kind>)
    ensures k.None? ==> forall c: Kind :: Slug(c) != slug
    ensures k.Some? ==> Slug(k.value) == slug
  {
    if slug == "fit" then Some(FitKind)
    else if slug == "crop" then Some(CropKind)
    else if slug == "ratiocrop" then Some(RatioCropKind)
    else if slug == "namedcrop" then Some(NamedCropKind)
    else if slug == "fill" then Some(FillKind)
    else None
  }

  /** The `parameters` tuple of each class. */
  function Parameters(k: Kind): seq<string> {
    match k
    case FitKind => ["width", "height"]
    case CropKind => ["width", "height"]
    case RatioCropKind => ["ratio"]
    case NamedCropKind => ["name"]
    case FillKind => ["width", "height", "max_width", "max_height"]
  }

  function KindOf(adj: Adjustment): Kind {
    match adj
    case Fit(_, _) => FitKind
    case Crop(_, _) => CropKind
    case RatioCrop(_) => RatioCropKind
    case NamedCrop(_) => NamedCropKind
    case Fill(_, _, _, _) => FillKind
  }

  /** The stored value of keyword `key`, or None when it was not passed. */
  function Param(adj: Adjustment, key: string): Option<Arg> {
    match adj
    case Fit(w, h) => if key == "width" then w else if key == "height" then h else None
    case Crop(w, h) => if key == "width" then w else if key == "height" then h else None
    case RatioCrop(r) => if key == "ratio" then r else None
    case NamedCrop(n) => if key == "name" then n else None
    case Fill(w, h, mw, mh) =>
      if key == "width" then w else if key == "height" then h
      else if key == "max_width" then mw else if key == "max_height" then mh else None
  }

  /** The first keyword, in call order, that the class does not accept. */
  function FirstRejected(kwargs: seq<(string, Arg)>, accepted: seq<string>): (r: Option<nat>)
    ensures r.None? <==> forall i | 0 <= i < |kwargs| :: kwargs[i].0 in accepted
    ensures r.Some? ==> r.value < |kwargs| && kwargs[r.value].0 !in accepted
    ensures r.Some? ==> forall i | 0 <= i < r.value :: kwargs[i].0 in accepted
  {
    if |kwargs| == 0 then None
    else if kwargs[0].0 !in accepted then Some(0)
    else
      var rest := FirstRejected(kwargs[1..], accepted);
      if rest.None? then None else Some(rest.value + 1)
  }

  /**
   * `Adjustment.__init__`: builds an adjustment of class `k`, or reports
   * the first keyword outside the class's `parameters`.
   */
  function Make(k: Kind, kwargs: seq<(string, Arg)>): (r: Result<Adjustment, string>)
    ensures r.Ok? <==> forall i | 0 <= i < |kwargs| :: kwargs[i].0 in Parameters(k)
    ensures r.Ok? ==> KindOf(r.value) == k
    ensures r.Ok? ==> forall p | p in Parameters(k) :: Param(r.value, p) == Get(kwargs, p)
    ensures r.Err? ==> r.error !in Parameters(k)
    ensures r.Err? ==>
      exists i | 0 <= i < |kwargs| :: kwargs[i].0 == r.error && forall j | 0 <= j < i :: kwargs[j].0 in Parameters(k)
  {
    var bad := FirstRejected(kwargs, Parameters(k));
    if bad.Some? then Err(kwargs[bad.value].0)
    else Ok(Build(k, kwargs))
  }

  /** The adjustment of kind `k` whose parameters take their values from `kwargs`. */
  function Build(k: Kind, kwargs: seq<(string, Arg)>): (a: Adjustment)
    ensures KindOf(a) == k
    ensures forall p | p in Parameters(k) :: Param(a, p) == Get(kwargs, p)
  {
    match k
    case FitKind => Fit(Get(kwargs, "width"), Get(kwargs, "height"))
    case CropKind => Crop(Get(kwargs, "width"), Get(kwargs, "height"))
    case RatioCropKind => RatioCrop(Get(kwargs, "ratio"))
    case NamedCropKind => NamedCrop(Get(kwargs, "name"))
    case FillKind => Fill(Get(kwargs, "width"), Get(kwargs, "height"), Get(kwargs, "max_width"), Get(kwargs, "max_height"))
  }

  /** `calculate.uses_areas`: only NamedCrop's calculate reads the areas. */
  predicate CalcUsesAreas(k: Kind) {
    k == NamedCropKind
  }

  /** `adjust.uses_areas`: every adjust except Fit's may read the areas. */
  predicate AdjustUsesAreas(k: Kind) {
    k != FitKind
  }

  // ------------------------------------------------------------------ value conversions

  /** `kwargs.get(key) is not None`. */
  predicate Present(a: Option<Arg>) {
    a.Some? && !a.value.Null?
  }

  /** `int(value)` of a keyword value that is not None. */
  function ToInt(a: Arg): (r: Result<int, CalcError>)
    requires !a.Null?
    ensures a.Num? ==> r == Ok(a.n)
    ensures a.Str? ==> (r.Ok? <==> Text.ParseInt(a.s).Some?)
  {
    match a
    case Num(n) => Ok(n)
    case Str(s) =>
      var v := Text.ParseInt(s);
      if v.Some? then Ok(v.value) else Err(BadLiteral(s))
  }

  /** The optional integer a size keyword converts to (None when absent or None). */
  function OptInt(a: Option<Arg>): (r: Result<Option<int>, CalcError>)
    ensures !Present(a) ==> r == Ok(None)
    ensures Present(a) ==> (r.Ok? <==> ToInt(a.value).Ok?)
    ensures Present(a) && r.Ok? ==> r.value == Some(ToInt(a.value).value)
  {
    if !Present(a) then Ok(None)
    else
      var n :- ToInt(a.value);
      Ok(Some(n))
  }

  // ------------------------------------------------------------------ sizes

  /** `r == min(cap, q)` for some rounding q of n / d. */
  ghost predicate CappedRounding(r: int, cap: int, n: int, d: int) {
    exists q :: IsRounding(q, n, d) && r == Min(cap, q)
  }

  /** `r` is n / d truncated, lowered to `cap` when a cap is given. */
  ghost predicate CappedTrunc(r: int, cap: Option<int>, n: int, d: int) {
    exists q :: IsTrunc(q, n, d) && r == (if cap.None? then q else Min(q, cap.value))
  }

  /**
   * `Fit.calculate`: scale to the requested width and/or height, keeping the
   * source's width/height ratio; with both, fit inside both.
   */
  function FitSize(width: Option<int>, height: Option<int>, src: Dims): (r: Dims)
    requires (width.Some? || height.Some?) ==> src.height != 0
    requires width.Some? ==> src.width != 0
    ensures width.None? && height.None? ==> r == src
    ensures width.Some? && height.None? ==>
      r.width == width.value && IsRounding(r.height, width.value * src.height, src.width)
    ensures width.None? && height.Some? ==>
      r.height == height.value && IsRounding(r.width, height.value * src.width, src.height)
    ensures width.Some? && height.Some? ==>
      && r.width <= width.value && r.height <= height.value
      && CappedRounding(r.width, width.value, height.value * src.width, src.height)
      && CappedRounding(r.height, height.value, width.value * src.height, src.width)
  {
    if width.None? && height.None? then src
    else if height.None? then
      Dims(width.value, RoundDiv(width.value * src.height, src.width))
    else if width.None? then
      Dims(RoundDiv(height.value * src.width, src.height), height.value)
    else
      Dims(Min(width.value, RoundDiv(height.value * src.width, src.height)),
           Min(height.value, RoundDiv(width.value * src.height, src.width)))
  }

  /**
   * `Crop.calculate`: a missing dimension keeps the source's, a given one is
   * lowered to the source's, so a crop never grows the image.
   */
  function CropSize(width: Option<int>, height: Option<int>, src: Dims): (r: Dims)
    ensures r.width <= src.width && r.height <= src.height
    ensures width.None? ==> r.width == src.width
    ensures height.None? ==> r.height == src.height
    ensures width.Some? ==> r.width <= width.value && (r.width == width.value || r.width == src.width)
    ensures height.Some? ==> r.height <= height.value && (r.height == height.value || r.height == src.height)
  {
    var w := if width.Some? then width.value else src.width;
    var h := if height.Some? then height.value else src.height;
    Dims(Min(w, src.width), Min(h, src.height))
  }

  /** The target ratio rw:rh is wider than the source's. */
  predicate Wider(rw: int, rh: int, src: Dims)
    requires rh != 0 && src.height != 0
  {
    QuotientGreater(rw, rh, src.width, src.height)
  }

  /**
   * `RatioCrop.calculate` for the ratio rw:rh: a wider target keeps the full
   * width and truncates W / ratio; otherwise the full height is kept and
   * H * ratio truncated.
   */
  function RatioSize(rw: int, rh: int, src: Dims): (r: Dims)
    requires rh != 0 && src.height != 0
    requires Wider(rw, rh, src) ==> rw != 0
    ensures Wider(rw, rh, src) ==> r.width == src.width && IsTrunc(r.height, src.width * rh, rw)
    ensures !Wider(rw, rh, src) ==> r.height == src.height && IsTrunc(r.width, src.height * rw, rh)
    ensures src.width >= 0 && src.height > 0 ==> r.width <= src.width && r.height <= src.height
  {
    if Wider(rw, rh, src) then
      var r := Dims(src.width, TruncDiv(src.width * rh, rw));
      RatioWithinSource(rw, rh, src, r);
      r
    else
      var r := Dims(TruncDiv(src.height * rw, rh), src.height);
      RatioWithinSource(rw, rh, src, r);
      r
  }

  lemma RatioWithinSource(rw: int, rh: int, src: Dims, r: Dims)
    requires rh != 0 && src.height != 0
    requires Wider(rw, rh, src) ==> rw != 0 && r.width == src.width && IsTrunc(r.height, src.width * rh, rw)
    requires !Wider(rw, rh, src) ==> r.height == src.height && IsTrunc(r.width, src.height * rw, rh)
    ensures src.width >= 0 && src.height > 0 ==> r.width <= src.width && r.height <= src.height
  {
    if src.width >= 0 && src.height > 0 {
      var W, H := src.width, src.height;
      ProductPositive(rh, H);
      ProductPositive(-rh, H);
      if Wider(rw, rh, src) {
        if rh > 0 {
          assert rw * H > W * rh;
          assert W * rh >= 0;
          ProductPositive(rw, H);
          TruncBelow(r.height, W * rh, rw, H);
        } else {
          assert rw * H < W * rh;
          assert W * rh <= 0 by { assert W * (-rh) >= 0; }
          ProductPositive(-rw, H);
          TruncBelow(r.height, W * rh, rw, H);
        }
      } else if rh > 0 {
        assert rw * H <= W * rh;
        TruncAtMost(r.width, H * rw, rh, W);
      } else {
        assert rw * H >= W * rh;
        TruncAtMost(r.width, H * rw, rh, W);
      }
    }
  }

  /** The area matches NamedCrop's `name` keyword (`area.name == name`). */
  predicate Matches(a: Area, name: Arg) {
    name.Str? && a.name == name.s
  }

  /** The index of the first area whose name matches, in list order. */
  function FirstNamed(areas: seq<Area>, name: Arg): (i: Option<nat>)
    ensures i.None? <==> forall j | 0 <= j < |areas| :: !Matches(areas[j], name)
    ensures i.Some? ==> i.value < |areas| && Matches(areas[i.value], name)
    ensures i.Some? ==> forall j | 0 <= j < i.value :: !Matches(areas[j], name)
  {
    if |areas| == 0 then None
    else if Matches(areas[0], name) then Some(0)
    else
      var rest := FirstNamed(areas[1..], name);
      if rest.None? then None else Some(rest.value + 1)
  }

  /**
   * `Fill.calculate`: both dimensions given are returned as they are; one
   * given derives the other from the source ratio (truncated), capped by
   * the matching `max_*`.
   */
  function FillSize(width: Option<int>, height: Option<int>, maxWidth: Option<int>, maxHeight: Option<int>,
                    src: Dims): (r: Dims)
    requires (width.Some? || height.Some?) ==> src.height != 0
    requires width.Some? && height.None? ==> src.width != 0
    ensures width.None? && height.None? ==> r == src
    ensures width.Some? && height.Some? ==> r == Dims(width.value, height.value)
    ensures width.Some? && height.None? ==>
      r.width == width.value && CappedTrunc(r.height, maxHeight, width.value * src.height, src.width)
    ensures width.None? && height.Some? ==>
      r.height == height.value && CappedTrunc(r.width, maxWidth, height.value * src.width, src.height)
  {
    if width.None? && height.None? then src
    else if width.None? then
      var w := TruncDiv(height.value * src.width, src.height);
      Dims(if maxWidth.Some? then Min(w, maxWidth.value) else w, height.value)
    else if height.None? then
      var h := TruncDiv(width.value * src.height, src.width);
      Dims(width.value, if maxHeight.Some? then Min(h, maxHeight.value) else h)
    else
      Dims(width.value, height.value)
  }

  /**
   * The two sides of a "<width>:<height>" ratio string, each read by
   * `float()`, scaled to a pair of integers with the same quotient; or why
   * the string cannot be read.
   */
  function ParseRatio(a: Arg): (r: Result<(int, int), CalcError>)
    requires !a.Null?
    ensures a.Num? ==> r == Err(MalformedRatio)
    ensures a.Str? && |Text.Split(a.s, ':')| != 2 ==> r == Err(MalformedRatio)
    ensures r.Ok? ==> a.Str? && |Text.Split(a.s, ':')| == 2 && RatioReads(Text.Split(a.s, ':'), r.value)
  {
    if a.Num? then Err(MalformedRatio)
    else
      var parts := Text.Split(a.s, ':');
      if |parts| != 2 then Err(MalformedRatio)
      else
        var w := Text.ParseDecimal(parts[0]);
        var h := Text.ParseDecimal(parts[1]);
        if w.None? then Err(BadLiteral(parts[0]))
        else if h.None? then Err(BadLiteral(parts[1]))
        else
          var q := Scaled(w.value, h.value);
          ScaledQuotient(w.value, h.value);
          Ok(q)
  }

  /** Both sides read as decimals, and `q` has their quotient. */
  ghost predicate RatioReads(parts: seq<string>, q: (int, int))
    requires |parts| == 2
  {
    var w, h := Text.ParseDecimal(parts[0]), Text.ParseDecimal(parts[1]);
    w.Some? && h.Some? && SameQuotient(q, w.value, h.value)
  }

  /** A side that `float()` refuses is reported, the width first. */
  lemma RatioBadSide(s: string)
    requires |Text.Split(s, ':')| == 2
    ensures var parts := Text.Split(s, ':');
      Text.ParseDecimal(parts[0]).None? || Text.ParseDecimal(parts[1]).None? ==>
        ParseRatio(Str(s)) == Err(BadLiteral(if Text.ParseDecimal(parts[0]).None? then parts[0] else parts[1]))
  {
  }

  /** Two decimal literals joined by ':' read as their scaled quotient. */
  lemma RatioOfDecimals(sw: string, sh: string)
    requires ':' !in sw && ':' !in sh
    requires Text.ParseDecimal(sw).Some? && Text.ParseDecimal(sh).Some?
    ensures ParseRatio(Str(sw + ":" + sh)) == Ok(Scaled(Text.ParseDecimal(sw).value, Text.ParseDecimal(sh).value))
  {
    Text.SplitPair(sw, sh, ':');
  }

  /** Integer sides read as themselves: the ratio is the pair of integers. */
  lemma RatioOfIntegers(sw: string, sh: string)
    requires ':' !in sw && ':' !in sh
    requires Text.ParseInt(sw).Some? && Text.ParseInt(sh).Some?
    ensures ParseRatio(Str(sw + ":" + sh)) == Ok((Text.ParseInt(sw).value, Text.ParseInt(sh).value))
  {
    var w, h := Text.ParseInt(sw).value, Text.ParseInt(sh).value;
    assert Text.ParseDecimal(sw) == Some(Text.Decimal(w, 0));
    assert Text.ParseDecimal(sh) == Some(Text.Decimal(h, 0));
    RatioOfDecimals(sw, sh);
    assert Text.Pow10(0) == 1;
    assert Scaled(Text.Decimal(w, 0), Text.Decimal(h, 0)) == (w, h);
  }

  /** The quotient of two decimals as a pair of integers: both sides times the other's power of ten. */
  function Scaled(w: Text.Decimal, h: Text.Decimal): (int, int) {
    (w.mantissa * Text.Pow10(h.scale), h.mantissa * Text.Pow10(w.scale))
  }

  /** `q.0 / q.1` is the quotient of the decimals `w / h`: zero denominators coincide, and cross products agree. */
  ghost predicate SameQuotient(q: (int, int), w: Text.Decimal, h: Text.Decimal) {
    && (q.1 == 0 <==> h.mantissa == 0)
    && q.0 * h.mantissa * Text.Pow10(w.scale) == q.1 * w.mantissa * Text.Pow10(h.scale)
  }

  lemma ScaledQuotient(w: Text.Decimal, h: Text.Decimal)
    ensures SameQuotient(Scaled(w, h), w, h)
  {
    var P, Q := Text.Pow10(w.scale), Text.Pow10(h.scale);
    var mw, mh := w.mantissa, h.mantissa;
    assert (mw * Q) * mh * P == mw * mh * (P * Q) by {
      ProductRegroup(mw, Q, mh, P);
    }
    assert (mh * P) * mw * Q == mw * mh * (P * Q) by {
      ProductRegroup(mh, P, mw, Q);
    }
    ProductZero(mh, P);
  }

  /** `"{0}:{1}".format(w, h)`. */
  function FormatRatio(w: int, h: int): string {
    Text.IntToString(w) + ":" + Text.IntToString(h)
  }

  /** The ratio string Fill builds reads back as the same two numbers. */
  lemma FormatRatioRoundTrip(w: int, h: int)
    ensures ParseRatio(Str(FormatRatio(w, h))) == Ok((w, h))
  {
    Text.IntRoundTrip(w);
    Text.IntRoundTrip(h);
    RatioOfIntegers(Text.IntToString(w), Text.IntToString(h));
  }

  /** `Fit.calculate`, with its conversions and zero divisions. */
  function CalcFit(wa: Option<Arg>, ha: Option<Arg>, src: Dims): (r: Result<Dims, CalcError>)
    ensures !Present(wa) && !Present(ha) ==> r == Ok(src)
    ensures (Present(wa) || Present(ha)) && src.height == 0 ==> r == Err(ZeroDivision)
    ensures r.Err? ==> r.error == ZeroDivision || r.error.BadLiteral?
    ensures r.Ok? ==> OptInt(wa).Ok? && OptInt(ha).Ok?
    ensures r.Err? && r.error.BadLiteral? ==> OptInt(wa).Err? || OptInt(ha).Err?
    ensures r.Err? && r.error == ZeroDivision ==> src.height == 0 || (Present(wa) && src.width == 0)
    ensures Present(wa) && src.width == 0 && OptInt(wa).Ok? && OptInt(ha).Ok? ==> r == Err(ZeroDivision)
    ensures r.Ok? && Present(wa) && !Present(ha) ==> r.value.width == OptInt(wa).value.value
    ensures r.Ok? && !Present(wa) && Present(ha) ==> r.value.height == OptInt(ha).value.value
    ensures r.Ok? && Present(wa) && Present(ha) ==>
      r.value.width <= OptInt(wa).value.value && r.value.height <= OptInt(ha).value.value
  {
    if !Present(wa) && !Present(ha) then Ok(src)
    else if src.height == 0 then Err(ZeroDivision)
    else
      var w :- OptInt(wa);
      var h :- OptInt(ha);
      if w.Some? && src.width == 0 then Err(ZeroDivision)
      else Ok(FitSize(w, h, src))
  }

  /** `Crop.calculate`, with its conversions. */
  function CalcCrop(wa: Option<Arg>, ha: Option<Arg>, src: Dims): (r: Result<Dims, CalcError>)
    ensures r.Ok? <==> OptInt(wa).Ok? && OptInt(ha).Ok?
    ensures r.Err? ==> r.error.BadLiteral?
    ensures r.Ok? ==> r.value.width <= src.width && r.value.height <= src.height
    ensures r.Ok? && !Present(wa) ==> r.value.width == src.width
    ensures r.Ok? && !Present(ha) ==> r.value.height == src.height
    ensures r.Ok? && Present(wa) ==> r.value.width == Min(OptInt(wa).value.value, src.width)
    ensures r.Ok? && Present(ha) ==> r.value.height == Min(OptInt(ha).value.value, src.height)
  {
    var w :- OptInt(wa);
    var h :- OptInt(ha);
    Ok(CropSize(w, h, src))
  }

  /**
   * `RatioCrop.calculate`: the source ratio is computed before the ratio
   * keyword is even looked at, so a zero-height source always fails.
   */
  function CalcRatio(ra: Option<Arg>, src: Dims): (r: Result<Dims, CalcError>)
    ensures src.height == 0 ==> r == Err(ZeroDivision)
    ensures src.height != 0 && !Present(ra) ==> r == Ok(src)
    ensures src.height != 0 && Present(ra) && ParseRatio(ra.value).Err? ==> r == Err(ParseRatio(ra.value).error)
    ensures src.height != 0 && Present(ra) && ParseRatio(ra.value).Ok? && ParseRatio(ra.value).value.1 == 0 ==>
      r == Err(ZeroDivision)
    ensures r.Ok? ==> r.value.width == src.width || r.value.height == src.height
    ensures r.Ok? && src.width >= 0 && src.height >= 0 ==> r.value.width <= src.width && r.value.height <= src.height
    ensures r.Ok? && Present(ra) ==>
      var q := ParseRatio(ra.value).value;
      && q.1 != 0 && src.height != 0 && (Wider(q.0, q.1, src) ==> q.0 != 0)
      && r.value == RatioSize(q.0, q.1, src)
  {
    if src.height == 0 then Err(ZeroDivision)
    else if !Present(ra) then Ok(src)
    else
      var p := ParseRatio(ra.value);
      if p.Err? then Err(p.error)
      else
        var q := p.value;
        if q.1 == 0 then Err(ZeroDivision)
        else if Wider(q.0, q.1, src) && q.0 == 0 then Err(ZeroDivision)
        else Ok(RatioSize(q.0, q.1, src))
  }

  /**
   * `NamedCrop.calculate`: the size of the first area with the requested
   * name; the `name` keyword is read only when there are areas.
   */
  function CalcNamed(na: Option<Arg>, src: Dims, areas: Option<seq<Area>>): (r: Result<Dims, CalcError>)
    ensures !HasAreas(areas) ==> r == Ok(src)
    ensures HasAreas(areas) && na.None? ==> r == Err(MissingName)
    ensures r.Err? ==> r == Err(MissingName)
    ensures HasAreas(areas) && na.Some? && NamedArea(areas.value, na.value).None? ==> r == Ok(src)
    ensures HasAreas(areas) && na.Some? && NamedArea(areas.value, na.value).Some? ==>
      var a := NamedArea(areas.value, na.value).value;
      r == Ok(Dims(a.Width(), a.Height()))
  {
    if !HasAreas(areas) then Ok(src)
    else if na.None? then Err(MissingName)
    else
      var i := FirstNamed(areas.value, na.value);
      if i.None? then Ok(src)
      else Ok(Dims(areas.value[i.value].Width(), areas.value[i.value].Height()))
  }

  /** `Fill.calculate`: each `max_*` is converted only on the branch that reads it. */
  function CalcFill(wa: Option<Arg>, ha: Option<Arg>, mwa: Option<Arg>, mha: Option<Arg>, src: Dims)
    : (r: Result<Dims, CalcError>)
    ensures !Present(wa) && !Present(ha) ==> r == Ok(src)
    ensures (Present(wa) || Present(ha)) && src.height == 0 ==> r == Err(ZeroDivision)
    ensures r.Err? ==> r.error == ZeroDivision || r.error.BadLiteral?
    ensures r.Err? && r.error == ZeroDivision ==> src.height == 0 || (Present(wa) && !Present(ha) && src.width == 0)
    ensures Present(wa) && !Present(ha) && src.height != 0 && src.width == 0 && ToInt(wa.value).Ok? ==>
      r == Err(ZeroDivision)
    ensures r.Ok? && Present(wa) ==> ToInt(wa.value).Ok? && r.value.width == ToInt(wa.value).value
    ensures r.Ok? && Present(ha) ==> ToInt(ha.value).Ok? && r.value.height == ToInt(ha.value).value
    ensures r.Ok? && Present(wa) && !Present(ha) && Present(mha) ==>
      ToInt(mha.value).Ok? && r.value.height <= ToInt(mha.value).value
    ensures r.Ok? && !Present(wa) && Present(ha) && Present(mwa) ==>
      ToInt(mwa.value).Ok? && r.value.width <= ToInt(mwa.value).value
    ensures Present(wa) && Present(ha) && src.height != 0 ==>
      (r.Ok? <==> ToInt(wa.value).Ok? && ToInt(ha.value).Ok?)
  {
    if !Present(wa) && !Present(ha) then Ok(src)
    else if src.height == 0 then Err(ZeroDivision)
    else if !Present(wa) then
      var h :- ToInt(ha.value);
      var mw :- OptInt(mwa);
      Ok(FillSize(None, Some(h), mw, None, src))
    else if !Present(ha) then
      var w :- ToInt(wa.value);
      if src.width == 0 then Err(ZeroDivision)
      else
        var mh :- OptInt(mha);
        Ok(FillSize(Some(w), None, None, mh, src))
    else
      var w :- ToInt(wa.value);
      var h :- ToInt(ha.value);
      Ok(FillSize(Some(w), Some(h), None, None, src))
  }

  /**
   * `calculate` of any adjustment on a source of size `src`, including the
   * exceptions the source raises (conversion failures, zero divisions, a
   * missing `name`).
   */
  function Calculate(adj: Adjustment, src: Dims, areas: Option<seq<Area>>): (r: Result<Dims, CalcError>)
    ensures r.Err? ==> r.error != NegativeSize
    ensures r.Err? && r.error == MissingName ==> adj.NamedCrop? && HasAreas(areas)
    ensures r.Err? && r.error == MalformedRatio ==> adj.RatioCrop?
    ensures r.Ok? && (adj.Crop? || adj.RatioCrop?) && src.width >= 0 && src.height >= 0 ==>
      r.value.width <= src.width && r.value.height <= src.height
  {
    match adj
    case Fit(wa, ha) => CalcFit(wa, ha, src)
    case Crop(wa, ha) => CalcCrop(wa, ha, src)
    case RatioCrop(ra) => CalcRatio(ra, src)
    case NamedCrop(na) => CalcNamed(na, src, areas)
    case Fill(wa, ha, mwa, mha) => CalcFill(wa, ha, mwa, mha, src)
  }

  // ------------------------------------------------------------------ image operations

  /** A crop box `(x1, y1, x2, y2)`. */
  datatype Box = Box(x1: int, y1: int, x2: int, y2: int)

  /** The resampling filter: ANTIALIAS when shrinking the width, BICUBIC otherwise. */
  datatype Filter = Antialias | Bicubic

  /** One imaging call: `image.copy()`, `image.crop(box)` or a resize. */
  datatype Op = Copy | CropTo(box: Box) | Resize(size: Dims, filter: Filter)

  /** The size of the image an operation returns. */
  function Apply(d: Dims, op: Op): Dims {
    match op
    case Copy => d
    case CropTo(b) => Dims(b.x2 - b.x1, b.y2 - b.y1)
    case Resize(size, _) => size
  }

  /** The size after applying `ops` in order. */
  function Run(d: Dims, ops: seq<Op>): Dims
    decreases |ops|
  {
    if |ops| == 0 then d else Run(Apply(d, ops[0]), ops[1..])
  }

  lemma RunPair(d: Dims, a: Op, b: Op)
    ensures Run(d, [a, b]) == Apply(Apply(d, a), b)
  {
    assert [a, b][1..] == [b];
    assert Run(Apply(d, a), [b]) == Run(Apply(Apply(d, a), b), []);
  }

  /** The areas argument is a non-empty list (`if not areas` fails). */
  predicate HasAreas(areas: Option<seq<Area>>) {
    areas.Some? && |areas.value| > 0
  }

  /**
   * `Fit.adjust` once the new size is known: a copy when the size does not
   * change, otherwise a resize, antialiased exactly when the width shrinks.
   */
  function ResizeOp(src: Dims, target: Dims): (op: Op)
    ensures Apply(src, op) == target
    ensures op.Copy? <==> target == src
    ensures op.Resize? ==> (op.filter == Antialias <==> target.width < src.width)
  {
    if target == src then Copy
    else Resize(target, if target.width < src.width then Antialias else Bicubic)
  }

  /**
   * `Crop.adjust` once the new size is known. Without areas the window is
   * centred (offsets truncated); with areas the first offset of least
   * penalty is chosen. An area of priority 0 raises ZeroDivisionError,
   * since the first offset is always scored in full.
   */
  method CropStep(src: Dims, target: Dims, areas: Option<seq<Area>>) returns (r: Result<Op, CalcError>)
    requires target.width <= src.width && target.height <= src.height
    ensures r.Err? <==> target != src && HasAreas(areas) && !Divisible(areas.value)
    ensures r.Err? ==> r.error == ZeroDivision
    ensures r.Ok? ==> Apply(src, r.value) == target
    ensures r.Ok? && target == src ==> r.value == Copy
    ensures r.Ok? && target != src && !HasAreas(areas) ==>
      && r.value.CropTo?
      && IsTrunc(r.value.box.x1, src.width - target.width, 2)
      && IsTrunc(r.value.box.y1, src.height - target.height, 2)
    ensures r.Ok? && target != src && HasAreas(areas) ==>
      r.value.CropTo? && InRange(src.width, src.height, target.width, target.height, r.value.box.x1, r.value.box.y1)
    ensures r.Ok? && target != src && HasAreas(areas) && Divisible(areas.value) && AllWellFormed(areas.value) ==>
      IsFirstMin(TrueDivision, areas.value, src.width, src.height, target.width, target.height,
                 r.value.box.x1, r.value.box.y1)
  {
    if target == src {
      return Ok(Copy);
    }
    var x1, y1;
    if !HasAreas(areas) {
      x1 := TruncDiv(src.width - target.width, 2);
      y1 := TruncDiv(src.height - target.height, 2);
    } else if !Divisible(areas.value) {
      return Err(ZeroDivision);
    } else {
      x1, y1 := Search(TrueDivision, areas.value, src.width, src.height, target.width, target.height);
    }
    r := Ok(CropTo(Box(x1, y1, x1 + target.width, y1 + target.height)));
  }

  /** The first area named by `name`, or None (NamedCrop's `for ... else`). */
  function NamedArea(areas: seq<Area>, name: Arg): (a: Option<Area>)
    ensures a.Some? <==> exists i | 0 <= i < |areas| :: Matches(areas[i], name)
    ensures a.Some? ==> a.value in areas && Matches(a.value, name)
  {
    var i := FirstNamed(areas, name);
    if i.None? then None else Some(areas[i.value])
  }

  /** The adjustment that produces the current engine's result under `adjust`. */
  function RatioFor(t: Dims): Adjustment {
    RatioCrop(Some(Str(FormatRatio(t.width, t.height))))
  }

  /** The Fit that `Fill.adjust` applies after its ratio crop. */
  function FitFor(t: Dims): Adjustment {
    Fit(Some(Num(t.width)), Some(Num(t.height)))
  }

  /** The ratio crop of a Fill never fails unless the ratio's height is zero. */
  lemma RatioForSucceeds(t: Dims, src: Dims)
    requires src.width >= 0 && src.height > 0 && t.height != 0
    ensures CalcRatio(RatioFor(t).ratio, src) == Ok(RatioSize(t.width, t.height, src))
    ensures Calculate(RatioFor(t), src, None) == Ok(RatioSize(t.width, t.height, src))
  {
    FormatRatioRoundTrip(t.width, t.height);
    ZeroNotWider(t.height, src);
    assert Calculate(RatioFor(t), src, None) == CalcRatio(RatioFor(t).ratio, src);
  }

  /** A ratio 0:h is never wider than a source of nonnegative width. */
  lemma ZeroNotWider(rh: int, src: Dims)
    requires src.width >= 0 && src.height > 0 && rh != 0
    ensures !Wider(0, rh, src)
  {
    ProductPositive(rh, src.height);
    if rh > 0 {
      assert src.width * rh >= 0;
    } else {
      assert src.width * (-rh) >= 0;
    }
  }

  /** A Fill's ratio string makes RatioCrop fail when the ratio's height is zero. */
  lemma RatioForZero(t: Dims, src: Dims)
    requires src.height != 0 && t.height == 0
    ensures CalcRatio(RatioFor(t).ratio, src) == Err(ZeroDivision)
  {
    FormatRatioRoundTrip(t.width, t.height);
  }

  /** What the Fill adjust methods rely on from `Fill.calculate`. */
  lemma FillCalcFacts(adj: Adjustment, src: Dims, areas: Option<seq<Area>>)
    requires adj.Fill?
    ensures Calculate(adj, src, areas) == Calculate(adj, src, None)
    ensures Calculate(adj, src, None).Ok? && Calculate(adj, src, None).value != src ==> src.height != 0
  {
  }

  /** The size `Fill.adjust` produces as written: ratio crop, then Fit. */
  function FillAsWrittenDims(adj: Adjustment, src: Dims): Result<Dims, CalcError>
    requires adj.Fill?
  {
    var t :- Calculate(adj, src, None);
    if t == src then Ok(src)
    else
      var c :- Calculate(RatioFor(t), src, None);
      Calculate(FitFor(t), c, None)
  }

  /**
   * `Fill.adjust` as written: after cropping to the ratio w:h it applies
   * `Fit(width=w, height=h)`, whose rounding can land below w x h or divide
   * by a zero-height crop.
   */
  method AdjustFillAsWritten(adj: Adjustment, src: Dims, areas: Option<seq<Area>>)
    returns (r: Result<seq<Op>, CalcError>)
    requires adj.Fill? && src.width >= 0 && src.height >= 0
    ensures r.Ok? ==> FillAsWrittenDims(adj, src) == Ok(Run(src, r.value))
    ensures FillAsWrittenDims(adj, src).Err? ==> r == Err(FillAsWrittenDims(adj, src).error)
    ensures Calculate(adj, src, areas).Err? ==> r.Err?
    ensures r.Err? && Calculate(adj, src, areas).Ok? ==> r.error == ZeroDivision
    ensures r.Err? && FillAsWrittenDims(adj, src).Ok? ==>
      r.error == ZeroDivision && HasAreas(areas) && !Divisible(areas.value)
    ensures FillAsWrittenDims(adj, src).Ok? && (!HasAreas(areas) || Divisible(areas.value)) ==> r.Ok?
  {
    FillCalcFacts(adj, src, areas);
    var t :- Calculate(adj, src, None);
    if t == src {
      assert FillAsWrittenDims(adj, src) == Ok(src);
      return Ok([Copy]);
    }
    if t.height == 0 {
      RatioForZero(t, src);
      assert FillAsWrittenDims(adj, src) == Err(ZeroDivision);
      return Err(ZeroDivision);
    }
    RatioForSucceeds(t, src);
    var c := RatioSize(t.width, t.height, src);
    FitForErrors(t, c);
    assert FillAsWrittenDims(adj, src) == Calculate(FitFor(t), c, None);
    var crop :- CropStep(src, c, areas);
    var f :- Calculate(FitFor(t), c, None);
    r := Ok([crop, ResizeOp(c, f)]);
    RunPair(src, crop, ResizeOp(c, f));
  }

  /** The Fit that follows a Fill's ratio crop has integer arguments, so it can only divide by zero. */
  lemma FitForErrors(t: Dims, c: Dims)
    ensures Calculate(FitFor(t), c, None).Err? ==> Calculate(FitFor(t), c, None) == Err(ZeroDivision)
  {
  }

  /**
   * Where both succeed, the size `Fill.adjust` produces as written is never
   * larger than the size `Fill.calculate` reports, side by side: the
   * following Fit keeps inside the requested box.
   */
  lemma FillAsWrittenWithinCalculate(adj: Adjustment, src: Dims)
    requires adj.Fill?
    requires Calculate(adj, src, None).Ok? && FillAsWrittenDims(adj, src).Ok?
    ensures FillAsWrittenDims(adj, src).value.width <= Calculate(adj, src, None).value.width
    ensures FillAsWrittenDims(adj, src).value.height <= Calculate(adj, src, None).value.height
  {
    var t := Calculate(adj, src, None).value;
    if t != src {
      var c := Calculate(RatioFor(t), src, None).value;
      assert FillAsWrittenDims(adj, src) == CalcFit(Some(Num(t.width)), Some(Num(t.height)), c);
    }
  }

  /**
   * `Fill.adjust` as documented: crop to the requested ratio, then resize to
   * exactly the size `Fill.calculate` reports.
   */
  method AdjustFill(adj: Adjustment, src: Dims, areas: Option<seq<Area>>)
    returns (r: Result<seq<Op>, CalcError>)
    requires adj.Fill? && src.width >= 0 && src.height >= 0
    ensures r.Ok? ==> Calculate(adj, src, areas) == Ok(Run(src, r.value))
    ensures Calculate(adj, src, areas).Err? ==> r.Err?
    ensures r.Err? && Calculate(adj, src, areas).Ok? ==>
      r.error == ZeroDivision && (Calculate(adj, src, areas).value.height == 0 || HasAreas(areas))
    ensures (Calculate(adj, src, areas).Ok? && Calculate(adj, src, areas).value.height != 0 &&
             (!HasAreas(areas) || Divisible(areas.value))) ==> r.Ok?
  {
    FillCalcFacts(adj, src, areas);
    var t :- Calculate(adj, src, None);
    if t == src {
      return Ok([Copy]);
    }
    if t.height == 0 {
      return Err(ZeroDivision);
    }
    ZeroNotWider(t.height, src);
    var c := RatioSize(t.width, t.height, src);
    var crop :- CropStep(src, c, areas);
    r := Ok([crop, ResizeOp(c, t)]);
    RunPair(src, crop, ResizeOp(c, t));
  }

  /**
   * `adjust` of any adjustment on an image of size `src`. For every class
   * but Fill, whatever it returns has exactly the size `calculate`
   * promises; Fill's has the size of its ratio crop followed by a Fit, which
   * `FillAsWrittenWithinCalculate` bounds by `calculate`. It fails where
   * `calculate` fails, and otherwise only on a zero division: an area of
   * priority 0, or a Fill whose crop or Fit divides by zero.
   */
  method Adjust(adj: Adjustment, src: Dims, areas: Option<seq<Area>>)
    returns (r: Result<seq<Op>, CalcError>)
    requires src.width >= 0 && src.height >= 0
    ensures r.Ok? && !adj.Fill? ==> Calculate(adj, src, areas) == Ok(Run(src, r.value))
    ensures r.Ok? && adj.Fill? ==> FillAsWrittenDims(adj, src) == Ok(Run(src, r.value))
    ensures Calculate(adj, src, areas).Err? ==> r.Err?
    ensures adj.Fill? && FillAsWrittenDims(adj, src).Err? ==> r.Err?
    ensures r.Err? && Calculate(adj, src, areas).Ok? ==>
      && r.error == ZeroDivision
      && ((HasAreas(areas) && !Divisible(areas.value)) || (adj.Fill? && FillAsWrittenDims(adj, src).Err?))
    ensures (Calculate(adj, src, areas).Ok? && (!HasAreas(areas) || Divisible(areas.value)) &&
             !(adj.Fill? && FillAsWrittenDims(adj, src).Err?)) ==> r.Ok?
    ensures adj.Fit? && r.Ok? ==> |r.value| == 1 && !r.value[0].CropTo?
    ensures adj.NamedCrop? && r.Ok? && HasAreas(areas) && NamedArea(areas.value, adj.name.value).Some? ==>
      var a := NamedArea(areas.value, adj.name.value).value;
      r.value == [CropTo(Box(a.x1, a.y1, a.x2, a.y2))]
  {
    match adj
    case Fit(wa, ha) =>
      var t :- CalcFit(wa, ha, src);
      r := Ok([ResizeOp(src, t)]);
    case Crop(wa, ha) =>
      var t :- CalcCrop(wa, ha, src);
      var op :- CropStep(src, t, areas);
      r := Ok([op]);
    case RatioCrop(ra) =>
      var t :- CalcRatio(ra, src);
      var op :- CropStep(src, t, areas);
      r := Ok([op]);
    case NamedCrop(na) =>
      if !HasAreas(areas) {
        return Ok([Copy]);
      }
      if na.None? {
        return Err(MissingName);
      }
      var i := FirstNamed(areas.value, na.value);
      if i.None? {
        return Ok([Copy]);
      }
      var a := areas.value[i.value];
      r := Ok([CropTo(Box(a.x1, a.y1, a.x2, a.y2))]);
    case Fill(_, _, _, _) =>
      FillCalcFacts(adj, src, areas);
      r := AdjustFillAsWritten(adj, src, areas);
  }

  /**
   * The `uses_areas` flags are sound: a `calculate` flagged as not using
   * areas gives the same answer with or without them.
   */
  lemma CalcIgnoresAreas(adj: Adjustment, src: Dims, areas: Option<seq<Area>>)
    requires !CalcUsesAreas(KindOf(adj))
    ensures Calculate(adj, src, areas) == Calculate(adj, src, None)
  {
  }

  /** ... and NamedCrop's flag is needed: its result can depend on the areas. */
  lemma NamedCropUsesAreas()
    ensures var adj := NamedCrop(Some(Str("face")));
      var face := Area(10, 10, 30, 40, "face", DefaultPriority);
      Calculate(adj, Dims(100, 100), Some([face])) == Ok(Dims(20, 30)) &&
      Calculate(adj, Dims(100, 100), None) == Ok(Dims(100, 100))
  {
  }
}
