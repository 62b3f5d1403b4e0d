/**
 * The `Area` record of daguerre/models.py: a rectangle of an image with a
 * name and a priority. The adjustment engine only reads it.
 */
module Areas {
  import opened Wrappers

  /** The default of the `priority` field. */
  const DefaultPriority := 3

  const X1Error := "X1 must be less than X2."
  const Y1Error := "Y1 must be less than Y2."

  /** A stored area: every coordinate is present (the columns are not nullable). */
  datatype Area = Area(x1: int, y1: int, x2: int, y2: int, name: string, priority: int) {

    /** The `width` property. */
    function Width(): int {
      x2 - x1
    }

    /** The `height` property. */
    function Height(): int {
      y2 - y1
    }

    /** The `area` property: the number of pixels the rectangle covers. */
    function Size(): int {
      Width() * Height()
    }

    /** Every field validator passes: coordinates within their minimums, priority at least 1. */
    predicate FieldsValid() {
      x1 >= 0 && y1 >= 0 && x2 >= 1 && y2 >= 1 && priority >= 1
    }

    /** A proper rectangle with a positive priority, as the crop search assumes. */
    predicate WellFormed() {
      FieldsValid() && x1 < x2 && y1 < y2
    }
  }

  /** An area built without a name or priority gets the field defaults. */
  function NewArea(x1: int, y1: int, x2: int, y2: int): Area {
    Area(x1, y1, x2, y2, "", DefaultPriority)
  }

  /** A well-formed area covers at least one pixel and at least its width and its height. */
  lemma WellFormedSize(a: Area)
    requires a.WellFormed()
    ensures a.Size() >= 1
    ensures a.Size() >= a.Width() && a.Size() >= a.Height()
  {
    assert a.Size() == a.Width() * a.Height();
    assert a.Width() * a.Height() >= a.Width() * 1;
    assert a.Width() * a.Height() >= 1 * a.Height();
  }

  /**
   * The names of the fields whose validators fail, in declaration order:
   * x1, y1 >= 0; x2, y2 >= 1; priority >= 1.
   */
  function FieldErrors(a: Area): (errors: seq<string>)
    ensures |errors| == 0 <==> a.FieldsValid()
    ensures "x1" in errors <==> a.x1 < 0
    ensures "y1" in errors <==> a.y1 < 0
    ensures "x2" in errors <==> a.x2 < 1
    ensures "y2" in errors <==> a.y2 < 1
    ensures "priority" in errors <==> a.priority < 1
  {
    Flag(a.x1 < 0, "x1") + Flag(a.y1 < 0, "y1") + Flag(a.x2 < 1, "x2") + Flag(a.y2 < 1, "y2")
    + Flag(a.priority < 1, "priority")
  }

  /** The one-field error list of a failed check, or nothing. */
  function Flag(failed: bool, field: string): (errors: seq<string>)
    ensures forall f :: f in errors <==> failed && f == field
    ensures |errors| == 0 <==> !failed
  {
    if failed then [field] else []
  }

  /** An area as a form holds it before saving: any coordinate may still be missing. */
  datatype Draft = Draft(x1: Option<int>, y1: Option<int>, x2: Option<int>, y2: Option<int>)

  function Stored(a: Area): Draft {
    Draft(Some(a.x1), Some(a.y1), Some(a.x2), Some(a.y2))
  }

  /** The `area` property of a draft: None when any coordinate is missing. */
  function DraftSize(d: Draft): (r: Option<int>)
    ensures r.None? <==> (d.x1.None? || d.y1.None? || d.x2.None? || d.y2.None?)
    ensures forall a: Area | d == Stored(a) :: r == Some(a.Size())
  {
    if d.x1.None? || d.y1.None? || d.x2.None? || d.y2.None? then None
    else Some((d.x2.value - d.x1.value) * (d.y2.value - d.y1.value))
  }

  /** Python truthiness of an optional integer: present and non-zero. */
  predicate Truthy(v: Option<int>) {
    v.Some? && v.value != 0
  }

  /**
   * `Area.clean`: the error messages it raises (empty when it passes). The
   * ordering test only runs when both coordinates are truthy.
   */
  function Clean(d: Draft): (errors: seq<string>)
    ensures X1Error in errors <==> Truthy(d.x1) && Truthy(d.x2) && d.x1.value >= d.x2.value
    ensures Y1Error in errors <==> Truthy(d.y1) && Truthy(d.y2) && d.y1.value >= d.y2.value
    ensures |errors| <= 2
    ensures |errors| == 2 ==> errors == [X1Error, Y1Error]
  {
    (if Truthy(d.x1) && Truthy(d.x2) && d.x1.value >= d.x2.value then [X1Error] else [])
    + (if Truthy(d.y1) && Truthy(d.y2) && d.y1.value >= d.y2.value then [Y1Error] else [])
  }

  /**
   * For a stored area whose corners are off the zero edges, `clean` passes
   * exactly when the rectangle is proper.
   */
  lemma CleanDecidesOrder(a: Area)
    requires a.x1 >= 1 && a.y1 >= 1 && a.x2 >= 1 && a.y2 >= 1
    ensures |Clean(Stored(a))| == 0 <==> a.x1 < a.x2 && a.y1 < a.y2
  {
    var e := Clean(Stored(a));
    if |e| == 0 {
      assert X1Error !in e && Y1Error !in e;
    }
  }

  /** A zero coordinate is falsy, so `clean` lets the empty rectangle (0, 0, 0, 0) through. */
  lemma CleanSkipsZeroCoordinates()
    ensures Clean(Draft(Some(0), Some(0), Some(0), Some(0))) == []
    ensures !NewArea(0, 0, 0, 0).WellFormed()
  {
  }
}
