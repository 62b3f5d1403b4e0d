/**
 * The earlier adjustment engine (daguerre/utils/adjustments.py): Fit, Crop
 * and Fill built around one source image, with `max_width`/`max_height`
 * clamps, a `calculate` that replaces a non-positive result by the source
 * size, floor-divided crop penalties, and the query dictionary an
 * adjustment is requested with.
 */
module Legacy {
  import opened Wrappers
  import opened Arith
  import opened Areas
  import opened Penalty
  import opened Placement
  import opened Adjustments

  /** The three registered classes of this engine. */
  datatype LegacyKind = LegacyFit | LegacyCrop | LegacyFill

  /** The requested dimensions an adjustment is built with; None when not given. */
  datatype Request = Request(width: Option<int>, height: Option<int>, maxWidth: Option<int>, maxHeight: Option<int>)

  /** The `adjustments` registry, in registration order. */
  const Registry: seq<(string, LegacyKind)> := [("fit", LegacyFit), ("crop", LegacyCrop), ("fill", LegacyFill)]

  const DefaultAdjustment := "fit"

  /** An image opened from a file has positive dimensions. */
  predicate ImageSize(src: Dims) {
    src.width >= 1 && src.height >= 1
  }

  /** `get_adjustment_class`: the registered class, or Fit for an unknown slug. */
  function AdjustmentClass(slug: string): (k: LegacyKind)
    ensures Get(Registry, slug).Some? ==> k == Get(Registry, slug).value
    ensures Get(Registry, slug).None? ==> k == LegacyFit
  {
    var k := Get(Registry, slug);
    if k.Some? then k.value else Get(Registry, DefaultAdjustment).value
  }

  lemma AdjustmentClassCases()
    ensures AdjustmentClass("crop") == LegacyCrop && AdjustmentClass("fill") == LegacyFill
    ensures AdjustmentClass("fit") == LegacyFit && AdjustmentClass("ratiocrop") == LegacyFit
  {
  }

  // ------------------------------------------------------------------ calculate

  /**
   * `Fit._calculate`: one requested side is exact and the other truncated
   * from the source ratio; if that exceeds the matching `max_*`, the max is
   * taken instead and the first side re-derived. With both sides the image
   * fits inside both.
   */
  function FitRaw(req: Request, src: Dims): (r: Dims)
    requires ImageSize(src)
    ensures req.width.None? && req.height.None? ==> r == src
    ensures req.width.Some? && req.height.None? ==>
      exists q :: IsTrunc(q, req.width.value * src.height, src.width) &&
        if req.maxHeight.Some? && q > req.maxHeight.value
        then r.height == req.maxHeight.value && IsTrunc(r.width, req.maxHeight.value * src.width, src.height)
        else r == Dims(req.width.value, q)
    ensures req.width.None? && req.height.Some? ==>
      exists q :: IsTrunc(q, req.height.value * src.width, src.height) &&
        if req.maxWidth.Some? && q > req.maxWidth.value
        then r.width == req.maxWidth.value && IsTrunc(r.height, req.maxWidth.value * src.height, src.width)
        else r == Dims(q, req.height.value)
    ensures req.width.Some? && req.height.Some? ==>
      && r.width <= req.width.value && r.height <= req.height.value
      && CappedTrunc(r.width, req.width, req.height.value * src.width, src.height)
      && CappedTrunc(r.height, req.height, req.width.value * src.height, src.width)
  {
    var W, H := src.width, src.height;
    if req.width.None? && req.height.None? then src
    else if req.height.None? then
      var h := TruncDiv(req.width.value * H, W);
      if req.maxHeight.Some? && h > req.maxHeight.value
      then Dims(TruncDiv(req.maxHeight.value * W, H), req.maxHeight.value)
      else Dims(req.width.value, h)
    else if req.width.None? then
      var w := TruncDiv(req.height.value * W, H);
      if req.maxWidth.Some? && w > req.maxWidth.value
      then Dims(req.maxWidth.value, TruncDiv(req.maxWidth.value * H, W))
      else Dims(w, req.height.value)
    else
      Dims(Min(req.width.value, TruncDiv(req.height.value * W, H)),
           Min(req.height.value, TruncDiv(req.width.value * H, W)))
  }

  /** The first of the values that is not None. */
  function FirstGiven(a: Option<int>, b: Option<int>, c: int): (v: int)
    ensures a.Some? ==> v == a.value
    ensures a.None? && b.Some? ==> v == b.value
    ensures a.None? && b.None? ==> v == c
  {
    if a.Some? then a.value else if b.Some? then b.value else c
  }

  /**
   * `Crop._calculate`: each side is the requested value, else its max, else
   * the source's, and never more than the source's.
   */
  function CropRaw(req: Request, src: Dims): (r: Dims)
    ensures r.width <= src.width && r.height <= src.height
    ensures r.width == src.width || r.width == FirstGiven(req.width, req.maxWidth, src.width)
    ensures r.height == src.height || r.height == FirstGiven(req.height, req.maxHeight, src.height)
    ensures FirstGiven(req.width, req.maxWidth, src.width) <= src.width ==>
      r.width == FirstGiven(req.width, req.maxWidth, src.width)
    ensures FirstGiven(req.height, req.maxHeight, src.height) <= src.height ==>
      r.height == FirstGiven(req.height, req.maxHeight, src.height)
  {
    Dims(Min(FirstGiven(req.width, req.maxWidth, src.width), src.width),
         Min(FirstGiven(req.height, req.maxHeight, src.height), src.height))
  }

  /** `_calculate` of each class; Fill's is the same as the current engine's. */
  function Raw(k: LegacyKind, req: Request, src: Dims): Dims
    requires ImageSize(src)
  {
    match k
    case LegacyFit => FitRaw(req, src)
    case LegacyCrop => CropRaw(req, src)
    case LegacyFill => FillSize(req.width, req.height, req.maxWidth, req.maxHeight, src)
  }

  predicate Positive(d: Dims) {
    d.width > 0 && d.height > 0
  }

  /**
   * `Adjustment.calculate`: a computed size with a non-positive side is
   * replaced by the source size, so the result is always positive.
   */
  function LegacyCalculate(k: LegacyKind, req: Request, src: Dims): (r: Dims)
    requires ImageSize(src)
    ensures Positive(r)
    ensures Positive(Raw(k, req, src)) ==> r == Raw(k, req, src)
    ensures !Positive(Raw(k, req, src)) ==> r == src
    ensures k == LegacyCrop ==> r.width <= src.width && r.height <= src.height
  {
    var d := Raw(k, req, src);
    if d.width <= 0 || d.height <= 0 then src else d
  }

  // ------------------------------------------------------------------ adjust

  /**
   * `Crop._adjust`: the window is centred with floor division when there are
   * no areas, and otherwise placed at the first minimum of the floor-divided
   * penalties. The search always runs, so an area of priority 0 always fails.
   */
  method LegacyCropStep(src: Dims, target: Dims, areas: Option<seq<Area>>) returns (r: Result<Op, CalcError>)
    requires ImageSize(src) && target.width <= src.width && target.height <= src.height
    ensures r.Err? <==> HasAreas(areas) && !Divisible(areas.value)
    ensures r.Err? ==> r.error == ZeroDivision
    ensures r.Ok? ==> r.value.CropTo? && Apply(src, r.value) == target
    ensures r.Ok? ==> InRange(src.width, src.height, target.width, target.height, r.value.box.x1, r.value.box.y1)
    ensures r.Ok? && !HasAreas(areas) ==>
      && 2 * r.value.box.x1 <= src.width - target.width < 2 * r.value.box.x1 + 2
      && 2 * r.value.box.y1 <= src.height - target.height < 2 * r.value.box.y1 + 2
    ensures r.Ok? && HasAreas(areas) && Divisible(areas.value) && AllWellFormed(areas.value) ==>
      IsFirstMin(FloorDivision, areas.value, src.width, src.height, target.width, target.height,
                 r.value.box.x1, r.value.box.y1)
  {
    var x1, y1;
    if !HasAreas(areas) {
      x1 := FloorDiv(src.width - target.width, 2);
      y1 := FloorDiv(src.height - target.height, 2);
    } else if !Divisible(areas.value) {
      return Err(ZeroDivision);
    } else {
      x1, y1 := Search(FloorDivision, areas.value, src.width, src.height, target.width, target.height);
    }
    r := Ok(CropTo(Box(x1, y1, x1 + target.width, y1 + target.height)));
  }

  /** `Fit._adjust`: always a resize (never the copy), antialiased when the width shrinks. */
  function FitOp(src: Dims, target: Dims): (op: Op)
    ensures op.Resize? && Apply(src, op) == target
    ensures op.filter == Antialias <==> target.width < src.width
  {
    Resize(target, if target.width < src.width then Antialias else Bicubic)
  }

  /**
   * `Fill._adjust`: crop to the target ratio (the full width when the target
   * is wider than the source, else the full height) through a Crop of this
   * engine, then Fit the crop to the target.
   */
  method LegacyFillSteps(req: Request, src: Dims, areas: Option<seq<Area>>) returns (r: Result<seq<Op>, CalcError>)
    requires ImageSize(src)
    ensures r.Err? <==> HasAreas(areas) && !Divisible(areas.value)
    ensures r.Ok? ==> |r.value| == 2 && r.value[0].CropTo? && r.value[1].Resize?
    ensures r.Ok? ==>
      var t := LegacyCalculate(LegacyFill, req, src);
      var c := Apply(src, r.value[0]);
      && 1 <= c.width <= src.width && 1 <= c.height <= src.height
      && InRange(src.width, src.height, c.width, c.height, r.value[0].box.x1, r.value[0].box.y1)
      && Run(src, r.value) == LegacyCalculate(LegacyFit, Request(Some(t.width), Some(t.height), None, None), c)
    ensures r.Ok? ==>
      var t := LegacyCalculate(LegacyFill, req, src);
      var ratio := RatioSize(t.width, t.height, src);
      Apply(src, r.value[0]) == LegacyCalculate(LegacyCrop, Request(Some(ratio.width), Some(ratio.height), None, None), src)
    ensures r.Ok? ==>
      var t := LegacyCalculate(LegacyFill, req, src);
      var c := Apply(src, r.value[0]);
      && (Wider(t.width, t.height, src) ==> c.width == src.width)
      && (!Wider(t.width, t.height, src) ==> c.height == src.height)
  {
    var t := LegacyCalculate(LegacyFill, req, src);
    ZeroNotWider(t.height, src);
    var ratio := RatioSize(t.width, t.height, src);
    var c := LegacyCalculate(LegacyCrop, Request(Some(ratio.width), Some(ratio.height), None, None), src);
    var crop :- LegacyCropStep(src, c, areas);
    var f := LegacyCalculate(LegacyFit, Request(Some(t.width), Some(t.height), None, None), c);
    r := Ok([crop, FitOp(c, f)]);
    RunPair(src, crop, FitOp(c, f));
  }

  /**
   * `Adjustment.adjust` of this engine: the result of `_adjust` (the cached
   * copy is never what is returned). Fit and Crop produce exactly the size
   * `calculate` reports.
   */
  method LegacyAdjust(k: LegacyKind, req: Request, src: Dims, areas: Option<seq<Area>>)
    returns (r: Result<seq<Op>, CalcError>)
    requires ImageSize(src)
    ensures r.Err? <==> k != LegacyFit && HasAreas(areas) && !Divisible(areas.value)
    ensures r.Ok? && k != LegacyFill ==> Run(src, r.value) == LegacyCalculate(k, req, src)
    ensures r.Ok? ==> Positive(Run(src, r.value))
  {
    match k
    case LegacyFit =>
      r := Ok([FitOp(src, LegacyCalculate(k, req, src))]);
    case LegacyCrop =>
      var op :- LegacyCropStep(src, LegacyCalculate(k, req, src), areas);
      r := Ok([op]);
    case LegacyFill =>
      r := LegacyFillSteps(req, src, areas);
  }

  // ------------------------------------------------------------------ query dictionary

  /** A value of the query dictionary. */
  datatype QValue = QText(s: string) | QInt(n: int)

  /** The security hash, an uninterpreted function of the request. */
  type SecurityHash = (string, Option<int>, Option<int>, Option<int>, Option<int>, string, Option<string>) -> string

  /** The slug under which class `k` is registered (the loop over the registry). */
  function SlugOf(reg: seq<(string, LegacyKind)>, k: LegacyKind): (s: Option<string>)
    ensures s.None? <==> forall i | 0 <= i < |reg| :: reg[i].1 != k
    ensures s.Some? ==> exists i | 0 <= i < |reg| :: reg[i] == (s.value, k)
  {
    if |reg| == 0 then None
    else if reg[0].1 == k then Some(reg[0].0)
    else SlugOf(reg[1..], k)
  }

  /** The optional `key = value` entry of a size that may be None. */
  function Entry(key: string, v: Option<int>): seq<(string, QValue)> {
    if v.Some? then [(key, QInt(v.value))] else []
  }

  /** The keys of a query dictionary, in insertion order. */
  function Keys(qd: seq<(string, QValue)>): seq<string> {
    seq(|qd|, i requires 0 <= i < |qd| => qd[i].0)
  }

  lemma KeysConcat(a: seq<(string, QValue)>, b: seq<(string, QValue)>)
    ensures Keys(a + b) == Keys(a) + Keys(b)
  {
  }

  /**
   * `querydict`: the slug under 'a', the security hash under 's', each size
   * under its short key only when it is not None, and the crop under 'c'
   * when there is one. An unregistered class raises ValueError.
   */
  function Querydict(reg: seq<(string, LegacyKind)>, hash: SecurityHash, k: LegacyKind, req: Request,
                     storagePath: string, crop: Option<string>): (r: Result<seq<(string, QValue)>, string>)
    ensures r.Err? <==> forall i | 0 <= i < |reg| :: reg[i].1 != k
    ensures r.Ok? ==> |r.value| >= 2 && r.value[0] == ("a", QText(SlugOf(reg, k).value))
    ensures r.Ok? ==> r.value[1] == ("s", QText(hash(storagePath, req.width, req.height, req.maxWidth, req.maxHeight,
                                                    SlugOf(reg, k).value, crop)))
    ensures r.Ok? ==> ("w" in Keys(r.value) <==> req.width.Some?) && ("h" in Keys(r.value) <==> req.height.Some?)
    ensures r.Ok? ==> ("max_w" in Keys(r.value) <==> req.maxWidth.Some?) && ("max_h" in Keys(r.value) <==> req.maxHeight.Some?)
    ensures r.Ok? ==> ("c" in Keys(r.value) <==> crop.Some?)
    ensures r.Ok? && req.width.Some? ==> ("w", QInt(req.width.value)) in r.value
    ensures r.Ok? ==> Get(r.value, "w") == IntValue(req.width) && Get(r.value, "h") == IntValue(req.height)
    ensures r.Ok? ==> Get(r.value, "max_w") == IntValue(req.maxWidth) && Get(r.value, "max_h") == IntValue(req.maxHeight)
    ensures r.Ok? ==> Get(r.value, "c") == (if crop.Some? then Some(QText(crop.value)) else None)
  {
    var slug := SlugOf(reg, k);
    if slug.None? then Err("Unregistered adjustment.")
    else
      var security := hash(storagePath, req.width, req.height, req.maxWidth, req.maxHeight, slug.value, crop);
      QuerydictKeys(slug.value, security, req, crop);
      QuerydictValues(slug.value, security, req, crop);
      Ok(Entries(slug.value, security, req, crop))
  }

  /** The dictionary `querydict` builds, in insertion order. */
  function Entries(slug: string, security: string, req: Request, crop: Option<string>): seq<(string, QValue)> {
    [("a", QText(slug)), ("s", QText(security))]
      + Entry("w", req.width) + Entry("h", req.height)
      + Entry("max_w", req.maxWidth) + Entry("max_h", req.maxHeight)
      + (if crop.Some? then [("c", QText(crop.value))] else [])
  }

  /** The query value of a size that may be None. */
  function IntValue(v: Option<int>): Option<QValue> {
    if v.Some? then Some(QInt(v.value)) else None
  }

  lemma EntryGet(key: string, v: Option<int>, other: string)
    ensures Get(Entry(key, v), key) == IntValue(v)
    ensures other != key ==> Get(Entry(key, v), other) == None
  {
  }

  /** Each short key of the query dictionary holds the request's value for it. */
  lemma QuerydictValues(slug: string, security: string, req: Request, crop: Option<string>)
    ensures var qd := Entries(slug, security, req, crop);
      && Get(qd, "w") == IntValue(req.width) && Get(qd, "h") == IntValue(req.height)
      && Get(qd, "max_w") == IntValue(req.maxWidth) && Get(qd, "max_h") == IntValue(req.maxHeight)
      && Get(qd, "c") == (if crop.Some? then Some(QText(crop.value)) else None)
  {
    SizeValues(slug, security, req, crop);
    MaxSizeValues(slug, security, req, crop);
    CropValue(slug, security, req, crop);
  }

  lemma SizeValues(slug: string, security: string, req: Request, crop: Option<string>)
    ensures var qd := Entries(slug, security, req, crop);
      Get(qd, "w") == IntValue(req.width) && Get(qd, "h") == IntValue(req.height)
  {
    EntriesGet(slug, security, req, crop, "w");
    EntryGet("w", req.width, "w");
    EntriesGet(slug, security, req, crop, "h");
    EntryGet("w", req.width, "h");
    EntryGet("h", req.height, "h");
  }

  lemma MaxSizeValues(slug: string, security: string, req: Request, crop: Option<string>)
    ensures var qd := Entries(slug, security, req, crop);
      Get(qd, "max_w") == IntValue(req.maxWidth) && Get(qd, "max_h") == IntValue(req.maxHeight)
  {
    EntriesGet(slug, security, req, crop, "max_w");
    EntryGet("w", req.width, "max_w");
    EntryGet("h", req.height, "max_w");
    EntryGet("max_w", req.maxWidth, "max_w");
    EntriesGet(slug, security, req, crop, "max_h");
    EntryGet("w", req.width, "max_h");
    EntryGet("h", req.height, "max_h");
    EntryGet("max_w", req.maxWidth, "max_h");
    EntryGet("max_h", req.maxHeight, "max_h");
  }

  lemma CropValue(slug: string, security: string, req: Request, crop: Option<string>)
    ensures Get(Entries(slug, security, req, crop), "c") == (if crop.Some? then Some(QText(crop.value)) else None)
  {
    EntriesGet(slug, security, req, crop, "c");
    EntryGet("w", req.width, "c");
    EntryGet("h", req.height, "c");
    EntryGet("max_w", req.maxWidth, "c");
    EntryGet("max_h", req.maxHeight, "c");
  }

  /** A lookup of a short key other than 'a' and 's' takes the first optional entry holding it. */
  lemma EntriesGet(slug: string, security: string, req: Request, crop: Option<string>, key: string)
    requires key != "a" && key != "s"
    ensures var ew, eh := Entry("w", req.width), Entry("h", req.height);
      var emw, emh := Entry("max_w", req.maxWidth), Entry("max_h", req.maxHeight);
      var c: seq<(string, QValue)> := if crop.Some? then [("c", QText(crop.value))] else [];
      Get(Entries(slug, security, req, crop), key) ==
        if Get(ew, key).Some? then Get(ew, key)
        else if Get(eh, key).Some? then Get(eh, key)
        else if Get(emw, key).Some? then Get(emw, key)
        else if Get(emh, key).Some? then Get(emh, key)
        else Get(c, key)
  {
    var head := [("a", QText(slug)), ("s", QText(security))];
    var ew, eh := Entry("w", req.width), Entry("h", req.height);
    var emw, emh := Entry("max_w", req.maxWidth), Entry("max_h", req.maxHeight);
    var c: seq<(string, QValue)> := if crop.Some? then [("c", QText(crop.value))] else [];
    var p1 := head + ew;
    var p2 := p1 + eh;
    var p3 := p2 + emw;
    var p4 := p3 + emh;
    assert Entries(slug, security, req, crop) == p4 + c;
    assert Get(head, key) == None;
    GetConcat(head, ew, key);
    GetConcat(p1, eh, key);
    GetConcat(p2, emw, key);
    GetConcat(p3, emh, key);
    GetConcat(p4, c, key);
  }

  /** The short keys present in a query dictionary, and the width entry. */
  lemma QuerydictKeys(slug: string, security: string, req: Request, crop: Option<string>)
    ensures
      var qd := Entries(slug, security, req, crop);
      && ("w" in Keys(qd) <==> req.width.Some?) && ("h" in Keys(qd) <==> req.height.Some?)
      && ("max_w" in Keys(qd) <==> req.maxWidth.Some?) && ("max_h" in Keys(qd) <==> req.maxHeight.Some?)
      && ("c" in Keys(qd) <==> crop.Some?)
      && (req.width.Some? ==> ("w", QInt(req.width.value)) in qd)
  {
    QuerydictKeyList(slug, security, req, crop);
    var ks := ["a", "s"] + (if req.width.Some? then ["w"] else []) + (if req.height.Some? then ["h"] else [])
      + (if req.maxWidth.Some? then ["max_w"] else []) + (if req.maxHeight.Some? then ["max_h"] else [])
      + (if crop.Some? then ["c"] else []);
    var w, h, mw, mh, c := req.width.Some?, req.height.Some?, req.maxWidth.Some?, req.maxHeight.Some?, crop.Some?;
    assert ks == ShortKeyList(w, h, mw, mh, c);
    WidthKeyIn(w, h, mw, mh, c);
    HeightKeyIn(w, h, mw, mh, c);
    MaxWidthKeyIn(w, h, mw, mh, c);
    MaxHeightKeyIn(w, h, mw, mh, c);
    CropKeyIn(w, h, mw, mh, c);
    var qd := Entries(slug, security, req, crop);
    if req.width.Some? {
      assert qd[2] == ("w", QInt(req.width.value));
    }
  }

  /** The short keys of a query dictionary whose optional entries are present as flagged. */
  function ShortKeyList(w: bool, h: bool, mw: bool, mh: bool, c: bool): seq<string> {
    ["a", "s"] + (if w then ["w"] else []) + (if h then ["h"] else [])
      + (if mw then ["max_w"] else []) + (if mh then ["max_h"] else []) + (if c then ["c"] else [])
  }

  lemma WidthKeyIn(w: bool, h: bool, mw: bool, mh: bool, c: bool)
    ensures "w" in ShortKeyList(w, h, mw, mh, c) <==> w
  {
  }

  lemma HeightKeyIn(w: bool, h: bool, mw: bool, mh: bool, c: bool)
    ensures "h" in ShortKeyList(w, h, mw, mh, c) <==> h
  {
  }

  lemma MaxWidthKeyIn(w: bool, h: bool, mw: bool, mh: bool, c: bool)
    ensures "max_w" in ShortKeyList(w, h, mw, mh, c) <==> mw
  {
  }

  lemma MaxHeightKeyIn(w: bool, h: bool, mw: bool, mh: bool, c: bool)
    ensures "max_h" in ShortKeyList(w, h, mw, mh, c) <==> mh
  {
  }

  lemma CropKeyIn(w: bool, h: bool, mw: bool, mh: bool, c: bool)
    ensures "c" in ShortKeyList(w, h, mw, mh, c) <==> c
  {
  }

  lemma QuerydictKeyList(slug: string, security: string, req: Request, crop: Option<string>)
    ensures
      Keys(Entries(slug, security, req, crop))
      == ["a", "s"] + (if req.width.Some? then ["w"] else []) + (if req.height.Some? then ["h"] else [])
        + (if req.maxWidth.Some? then ["max_w"] else []) + (if req.maxHeight.Some? then ["max_h"] else [])
        + (if crop.Some? then ["c"] else [])
  {
    var c := if crop.Some? then [("c", QText(crop.value))] else [];
    var head := [("a", QText(slug)), ("s", QText(security))];
    var p1 := head + Entry("w", req.width);
    var p2 := p1 + Entry("h", req.height);
    var p3 := p2 + Entry("max_w", req.maxWidth);
    var p4 := p3 + Entry("max_h", req.maxHeight);
    KeysConcat(head, Entry("w", req.width));
    assert Keys(p1) == ["a", "s"] + (if req.width.Some? then ["w"] else []);
    KeysConcat(p1, Entry("h", req.height));
    assert Keys(p2) == Keys(p1) + (if req.height.Some? then ["h"] else []);
    KeysConcat(p2, Entry("max_w", req.maxWidth));
    assert Keys(p3) == Keys(p2) + (if req.maxWidth.Some? then ["max_w"] else []);
    KeysConcat(p3, Entry("max_h", req.maxHeight));
    assert Keys(p4) == Keys(p3) + (if req.maxHeight.Some? then ["max_h"] else []);
    KeysConcat(p4, c);
    assert Keys(p4 + c) == Keys(p4) + (if crop.Some? then ["c"] else []);
    assert Entries(slug, security, req, crop) == p4 + c;
  }
}
