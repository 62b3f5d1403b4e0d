# django-daguerre geometry engine, in Dafny

This project models the geometry behind django-daguerre's image adjustments
and proves properties of it. Images are represented by their size
`(width, height)` only. Each adjustment has a `calculate`, which gives the
size of the result, and an `adjust`, which gives the imaging calls that
produce it: `copy()`, `crop(box)` or `resize(size, filter)`. No pixel value
is ever read.

The modules follow the repository's files:

- `Adjustments` (adjustments.dfy) is the current engine, daguerre/adjustments.py:
  - the registry and the keyword check of the constructor;
  - the `calculate` of Fit, Crop, RatioCrop, NamedCrop and Fill, including every
    exception they raise, modelled as error results;
  - `adjust` of every class. For every class except Fill, the operations it
    returns are proved to produce exactly the size `calculate` reports. Fill's
    `adjust`, as written, produces a size proved to be no larger than
    `calculate`'s on either side, and sometimes smaller; see "## Findings".
- `Penalty` and `Placement` (penalty.dfy, placement.dfy) hold `Crop._get_penalty`
  and the exhaustive crop-placement search:
  - x is the outer loop and y the inner one, with the early `break`;
  - the search is proved to return the first offset of least total penalty;
  - both engines use the search. The current engine divides penalties exactly;
    the earlier one floors.
- `Legacy` (legacy.dfy) is the earlier engine, daguerre/utils/adjustments.py:
  - `get_adjustment_class` with its fallback to Fit;
  - the `max_width`/`max_height` clamps;
  - the rule that a non-positive size falls back to the source size;
  - floor-divided penalties;
  - the `querydict` an adjustment is requested with.
- `Areas` (area.dfy) and `Models` (models.dfy) cover daguerre/models.py:
  - the `Area` record, its derived sizes, its field validators and `clean`;
  - the path `upload_to` builds;
  - the stored adjusted images `delete_adjusted_images` drops.
- `Helpers` (helpers.dfy) covers daguerre/helpers.py:
  - the `>`-joined requested string;
  - the `uses_areas` aggregation;
  - the size `_path_info_dict` reports, a left fold of `calculate`;
  - the query-string security decision;
  - the bulk helper's grouping of items by storage path and its `info_dicts`.
- `LegacyHelpers` (legacy_helpers.dfy) covers daguerre/utils/adjustment_helpers.py:
  - the default adjustment;
  - the database lookup keywords and the creation keywords;
  - `to_querydict` / `from_querydict`, proved to be inverse to each other.
- `SeamCarve` (seam_carve.dfy) covers daguerre/seam_carve.py:
  - the `get_cost` recurrence over an integer energy grid;
  - the greedy `get_seam`;
  - `delete_seam`.
- `Arith` and `Text` hold the exact stand-ins for Python arithmetic and strings:
  - `int()` of a quotient truncates toward zero;
  - Python 2 `/` on integers floors;
  - `round` is within half a unit;
  - `split`/`join` and `int`/`str`.
- `AdjustmentExamples` and `LegacyExamples` hold the worked cases of the
  repository's unit tests and the counterexamples of the findings below.

Float ratios are modelled with exact integer arithmetic. A side of a ratio
string is read by `float()` as an exact decimal, so "1.5:1" becomes the
pair (15, 10). `int(W / (rw/rh))`
becomes `W*rh` divided by `rw`, truncated toward zero. `ratio > image_ratio`
becomes a cross-multiplied comparison that takes the signs into account.
The current engine's penalties are Dafny `real`s, which are exact.

Where the prose documentation and the code disagree, the model follows the code:

- RatioCrop and Fill truncate derived sides with `int()`; they do not round.
- The earlier engine's default adjustment is `fit`.
- `Fill.adjust` does not always produce the size `Fill.calculate` promises;
  see "## Findings".

## Model

| member | source | states |
|---|---|---|
| `Arith.FloorDiv` | daguerre/utils/adjustments.py:264-265 | Python 2 `/` on integers brackets the dividend from below: `q*d <= n < q*d + d` for a positive divisor, mirrored for a negative one |
| `Arith.TruncDiv` | daguerre/adjustments.py:245-247 | `int()` of a true quotient: \|q*d\| is at most \|n\| and within one \|d\| of it, and q has the sign of n/d |
| `Arith.RoundDiv` | daguerre/adjustments.py:113 | `round(n / d)` lies within half a unit of the exact quotient |
| `Arith.QuotientGreater` | daguerre/adjustments.py:242 | comparing two ratios is cross-multiplication, with the comparison flipped when the denominators' product is negative |
| `Text.Split` | daguerre/helpers.py:163 | `str.split` always yields at least one piece and no piece contains the separator |
| `Text.SplitJoin` | daguerre/helpers.py:163-164 | splitting a joined list gives the list back when no piece contains the separator |
| `Text.JoinSplit` | daguerre/helpers.py:44 | joining the pieces of a split string rebuilds the string |
| `Text.Slice` | daguerre/models.py:152-153 | a Python slice is never longer than asked and equals Dafny's slice when the string is long enough |
| `Text.TrimStart` | daguerre/adjustments.py:112 | `lstrip` drops exactly the leading white space: what it drops is all white space and what it keeps does not start with any |
| `Text.TrimEnd` | daguerre/adjustments.py:112 | `rstrip` drops exactly the trailing white space, symmetrically |
| `Text.StripPadded` | daguerre/adjustments.py:112 | white space around a string that neither starts nor ends with white space is all that `strip` removes |
| `Text.PaddedIntRoundTrip` | daguerre/adjustments.py:112 | `int()` of `str(n)` surrounded by white space is n |
| `Text.IntRoundTrip` | daguerre/utils/adjustment_helpers.py:125-127 | `int(str(n)) == n` for every integer, and the decimal rendering holds no `:` |
| `Text.ParseDecimal` | daguerre/adjustments.py:240 | whatever `int()` reads, `float()` reads as the same value with no fractional digits |
| `Text.UnsignedInteger` | daguerre/adjustments.py:240 | a run of digits reads under `float()` as the integer it denotes |
| `Text.DecimalLiteral` | daguerre/adjustments.py:240 | `float(p + "." + f)` for digit runs p and f is exactly the digits of p and f over 10 to the length of f |
| `Wrappers.Get` | daguerre/adjustments.py:103 | `dict.get` finds nothing exactly when no pair has the key, and otherwise a value paired with it |
| `Wrappers.GetConcat` | daguerre/utils/adjustments.py:130-136 | a lookup in a concatenation takes the first list's value when it has one, else the second's |
| `Areas.WellFormedSize` | daguerre/models.py:45-57 | a proper rectangle covers at least one pixel, and at least its width and its height |
| `Areas.FieldErrors` | daguerre/models.py:36-43 | each field is reported exactly when its minimum validator fails (x1, y1 >= 0; x2, y2 >= 1; priority >= 1), and nothing is reported exactly when all pass |
| `Areas.DraftSize` | daguerre/models.py:45-49 | the `area` property is None exactly when some coordinate is missing, and a stored area's pixel count otherwise |
| `Areas.Clean` | daguerre/models.py:73-80 | each message is raised exactly when both coordinates are truthy and out of order; at most two messages, x before y |
| `Areas.CleanDecidesOrder` | daguerre/models.py:73-80 | for coordinates off the zero edges, `clean` passes exactly when x1 < x2 and y1 < y2 |
| `Areas.CleanSkipsZeroCoordinates` | daguerre/models.py:75-78 | zero is falsy, so the empty rectangle (0, 0, 0, 0) passes `clean` although it is not well formed |
| `Penalty.PenaltyArea` | daguerre/adjustments.py:203-216 | an enclosed area loses nothing and an excluded one loses all of itself; for a proper area the loss lies between 0 and its size and is 0 exactly when the window encloses it |
| `Penalty.PartialOverlapBounds` | daguerre/adjustments.py:212-216 | in the partial case the kept part of a proper area is non-negative and strictly smaller than the area |
| `Penalty.Contribution` | daguerre/adjustments.py:217 | an area's share of the penalty lies between 0 and size/priority; with exact division it is 0 exactly when the window encloses the area |
| `Penalty.FloorBounds` | daguerre/utils/adjustments.py:302 | the floored penalty of the earlier engine stays between 0 and size/priority |
| `Penalty.PrefixBelowTotal` | daguerre/adjustments.py:184-189 | with proper areas a partial sum never exceeds the full penalty, so the early `break` never discards a better offset |
| `Penalty.TotalZeroIffEnclosesAll` | daguerre/adjustments.py:184-187 | with exact division a window costs nothing exactly when it encloses every area |
| `Placement.FirstMinUnique` | daguerre/adjustments.py:191-196 | the first offset of least penalty, in x-outer/y-inner order, is unique |
| `Placement.ScorePruned` | daguerre/adjustments.py:184-189 | the area loop with its `break` yields the full penalty whenever that does not exceed the best so far, and breaks only when the full penalty exceeds it too |
| `Placement.ScanColumn` | daguerre/adjustments.py:182-195 | one pass of the inner y loop extends "first minimum of the offsets scanned so far" to the end of column x |
| `Placement.Search` | daguerre/adjustments.py:179-196 | the chosen offset keeps the window inside the image, and with proper areas it is the first offset of least total penalty |
| `Adjustments.Lookup` | daguerre/adjustments.py:17-25 | a slug finds exactly the class whose lower-cased name it is |
| `Adjustments.Make` | daguerre/adjustments.py:56-61 | construction succeeds exactly when every keyword is in `parameters`, keeping each value; otherwise the error names the first rejected keyword |
| `Adjustments.ToInt` | daguerre/adjustments.py:112 | `int()` keeps a number and succeeds on a string exactly when, once stripped of surrounding white space, it is a signed decimal literal |
| `Adjustments.OptInt` | daguerre/adjustments.py:159-160 | an absent or None keyword converts to None; a present one converts exactly when `int()` accepts it, to that value |
| `Adjustments.FitSize` | daguerre/adjustments.py:101-124 | no bound keeps the source; one bound is met exactly and the other side is the rounded ratio; two bounds are both respected, each side the smaller of its bound and the rounded ratio |
| `Adjustments.CropSize` | daguerre/adjustments.py:155-165 | a crop never grows the image: a missing side keeps the source's, a given side is the request or the source's, whichever is smaller |
| `Adjustments.RatioSize` | daguerre/adjustments.py:239-250 | a wider ratio keeps the full width and truncates the height, otherwise the full height is kept and the width truncated; the result never exceeds the source |
| `Adjustments.FirstNamed` | daguerre/adjustments.py:272-276 | the index of the first area carrying the requested name, or None exactly when no area carries it |
| `Adjustments.FillSize` | daguerre/adjustments.py:308-334 | no bound keeps the source; both bounds are returned as given; one bound is exact and the other side is the truncated ratio, lowered to its `max_*` |
| `Adjustments.ParseRatio` | daguerre/adjustments.py:239-240 | a number, or a string without exactly one `:`, cannot be unpacked; a successful read has two sides that `float()` accepts and a pair with their exact quotient |
| `Adjustments.RatioBadSide` | daguerre/adjustments.py:239-240 | a side that `float()` refuses is reported, the width side first |
| `Adjustments.RatioOfDecimals` | daguerre/adjustments.py:239-240 | two decimal literals joined by `:` read as the pair of their mantissas, each scaled by the other's power of ten |
| `Adjustments.RatioOfIntegers` | daguerre/adjustments.py:239-240 | integer sides read as the pair of those integers |
| `Adjustments.ScaledQuotient` | daguerre/adjustments.py:240 | the scaled pair has the decimals' quotient: zero denominators coincide and the cross products agree |
| `Adjustments.FormatRatioRoundTrip` | daguerre/adjustments.py:344 | the `"w:h"` string Fill builds parses back to the same two numbers |
| `Adjustments.CalcFit` | daguerre/adjustments.py:101-124 | no bound keeps the source; a bound on a zero-height source, or a width bound on a zero-width one, divides by zero; conversion errors are reported; one bound is met exactly and two are both respected |
| `Adjustments.CalcCrop` | daguerre/adjustments.py:155-165 | succeeds exactly when both keywords convert; never larger than the source; each side is its request or the source's, whichever is smaller |
| `Adjustments.CalcRatio` | daguerre/adjustments.py:231-250 | a zero-height source always divides by zero; no ratio keeps the source; an unreadable ratio reports its error; a zero ratio height divides by zero; a result keeps the full width or the full height and stays inside the source |
| `Adjustments.CalcNamed` | daguerre/adjustments.py:266-278 | no areas keeps the source; areas without the `name` keyword are a KeyError; otherwise the first named area's size, or the source when none carries the name |
| `Adjustments.CalcFill` | daguerre/adjustments.py:308-334 | no bound keeps the source; a bound on a zero-height source, or a lone width on a zero-width one, divides by zero; each given side is kept exactly, the derived side respects its `max_*`; two given sides succeed exactly when both convert |
| `Adjustments.Calculate` | daguerre/adjustments.py:101-334 | no `calculate` reports a negative-size error, only NamedCrop a missing name, only RatioCrop a malformed ratio; Crop and RatioCrop never exceed the source |
| `Adjustments.ResizeOp` | daguerre/adjustments.py:127-141 | the operation yields the target size; it is a copy exactly when the size is unchanged, and a resize is antialiased exactly when the width shrinks |
| `Adjustments.CropStep` | daguerre/adjustments.py:168-201 | the crop has the target size; unchanged size gives a copy; without areas the offset is the truncated half of the slack; with areas it is the first least-penalty offset, and a priority-0 area is a ZeroDivisionError |
| `Adjustments.NamedArea` | daguerre/adjustments.py:286-290 | an area is found exactly when one carries the name, and it is one of them |
| `Adjustments.RatioForSucceeds` | daguerre/adjustments.py:344-345 | the ratio crop Fill builds computes the RatioCrop size whenever the target height is non-zero |
| `Adjustments.RatioForZero` | daguerre/adjustments.py:344-345 | a target of height 0 makes that ratio crop divide by zero |
| `Adjustments.FitForErrors` | daguerre/adjustments.py:347 | the Fit that follows Fill's ratio crop has integer arguments, so it can only divide by zero |
| `Adjustments.FillAsWrittenWithinCalculate` | daguerre/adjustments.py:337-348 | where both succeed, each side of the size `Fill.adjust` produces as written is at most the side `Fill.calculate` reports |
| `Adjustments.AdjustFillAsWritten` | daguerre/adjustments.py:337-348 | the code as written: its operations produce the size of ratio crop followed by `Fit(w, h)`; it fails with that chain's error wherever the chain fails, and otherwise only on a priority-0 area |
| `Adjustments.AdjustFill` | daguerre/adjustments.py:298-303 | Fill as documented: its operations produce exactly the size `calculate` reports; it fails only where `calculate` fails, on a zero target height, or on a priority-0 area |
| `Adjustments.Adjust` | daguerre/adjustments.py:127-348 | every class's `adjust` except Fill's produces exactly the size its `calculate` reports, and Fill's produces the size of its ratio crop followed by a Fit; it fails where `calculate` fails and otherwise only on a zero division (a priority-0 area, or a Fill chain that divides by zero); Fit never crops and NamedCrop crops exactly the named area's box |
| `Adjustments.CalcIgnoresAreas` | daguerre/adjustments.py:43-46 | a `calculate` flagged `uses_areas = False` gives the same answer with or without areas |
| `Adjustments.NamedCropUsesAreas` | daguerre/adjustments.py:266-278 | NamedCrop's `calculate` does depend on the areas, so its flag must stay unset |
| `AdjustmentExamples.FitCases` | daguerre/tests/unit/test_adjustments.py:17-31 | Fit on 100x100 gives 50x50 for (50, 50), (50, -), (-, 50) and (60, 50); null bounds keep the source, even one of height 0 |
| `AdjustmentExamples.CropCases` | daguerre/tests/unit/test_adjustments.py:67-77 | Crop on 100x100 gives 50x50, 50x100 and 100x50, and never more than the source |
| `AdjustmentExamples.FillCases` | daguerre/tests/unit/test_adjustments.py:114-144 | the Fill sizes of the unit tests, including the `max_*` caps |
| `AdjustmentExamples.FillStringCase` | daguerre/tests/unit/test_adjustments.py:146-148 | string keywords are converted with `int()`, and a malformed one raises |
| `AdjustmentExamples.DecimalRatioCrop` | daguerre/adjustments.py:239-250 | the ratio "1.5:1" crops a 300x100 image to 150x100 |
| `AdjustmentExamples.PaddedWidth` | daguerre/adjustments.py:112 | a width given as a string with surrounding white space fits like the number itself |
| `AdjustmentExamples.RatioCropCases` | daguerre/adjustments.py:231-250 | 2:1 and 1:2 crops of a square keep the full width or height; a zero ratio height or a zero-height source divides by zero |
| `AdjustmentExamples.CropAroundArea` | daguerre/tests/unit/test_adjustments.py:103-110 | a 50x50 crop of 100x100 around the area (21, 46, 70, 95) is placed at (20, 45) |
| `AdjustmentExamples.FillAsWrittenShrinks` | daguerre/adjustments.py:337-348 | `Fill(width=3, height=4)` on 100x5 is calculated as 3x4 but adjusted, as written, to 2x4 |
| `AdjustmentExamples.FillAsWrittenDividesByZero` | daguerre/adjustments.py:337-348 | `Fill(width=100, height=1)` on 1x100 is calculated as 100x1, but as written the ratio crop leaves 1x0 and Fit divides by zero |
| `Legacy.AdjustmentClass` | daguerre/utils/adjustments.py:28-33 | a registered slug gives its class and any other slug gives Fit |
| `Legacy.AdjustmentClassCases` | daguerre/utils/adjustments.py:28-33 | `crop` and `fill` are registered, `fit` is the default, and an unknown slug such as `ratiocrop` falls back to Fit |
| `Legacy.FitRaw` | daguerre/utils/adjustments.py:197-224 | one bound is exact and the other side truncated from the ratio, unless that exceeds the matching `max_*`, which then wins and the first side is re-derived; with two bounds both are respected |
| `Legacy.CropRaw` | daguerre/utils/adjustments.py:247-257 | each side is the first given of request, `max_*` and source, never more than the source |
| `Legacy.LegacyCalculate` | daguerre/utils/adjustments.py:88-95 | the size is always positive: a computed size with a non-positive side is replaced by the source size, any other is kept |
| `Legacy.LegacyCropStep` | daguerre/utils/adjustments.py:259-288 | the crop has the target size and lies inside the image; without areas it is centred with floor division, with areas it is the first least floored-penalty offset |
| `Legacy.FitOp` | daguerre/utils/adjustments.py:226-235 | always a resize to the target, antialiased exactly when the width shrinks |
| `Legacy.LegacyFillSteps` | daguerre/utils/adjustments.py:337-354 | a crop inside the image, of positive size, followed by a Fit of that crop to the calculated target; the crop is the legacy Crop of the target ratio's size, keeping the full width when the target is wider and the full height otherwise |
| `Legacy.LegacyAdjust` | daguerre/utils/adjustments.py:100-109 | the result always has positive size; Fit and Crop produce exactly the calculated size; only a priority-0 area makes Crop or Fill fail |
| `Legacy.SlugOf` | daguerre/utils/adjustments.py:119-123 | the slug a class is registered under, or None exactly when it is unregistered |
| `Legacy.Querydict` | daguerre/utils/adjustments.py:114-137 | an unregistered class raises; otherwise the slug and hash come first, and each size or crop key is present exactly when its value is not None, holding that value |
| `Legacy.QuerydictValues` | daguerre/utils/adjustments.py:130-137 | each of `w`, `h`, `max_w`, `max_h` and `c` looks up the request's value for it, or nothing when that is None |
| `LegacyExamples.FitCases` | daguerre/tests/unit/adjustments.py:14-23 | the Fit sizes of the earlier engine's tests, and a `max_height` clamp |
| `LegacyExamples.CropCases` | daguerre/tests/unit/adjustments.py:39-46 | the Crop sizes of the earlier engine's tests, and a `max_width` used in place of a missing width |
| `LegacyExamples.FillCases` | daguerre/tests/unit/adjustments.py:69-86 | the Fill sizes of the earlier engine's tests |
| `LegacyExamples.FallbackCases` | daguerre/utils/adjustments.py:92-93 | a zero width request, or a height that truncates to 0, falls back to the source size |
| `LegacyExamples.FloorDivisionChangesPlacement` | daguerre/utils/adjustments.py:290-302 | on a 3x1 image cropped to 2x1 the exact penalties choose offset 1 but the floored ones choose offset 0 |
| `Helpers.RequestedParts` | daguerre/helpers.py:163-164 | the pieces of a requested string contain no `>` and join back to it |
| `Helpers.RequestedRoundTrip` | daguerre/helpers.py:43-44 | splitting the requested string of a pipeline gives back its serialised adjustments |
| `Helpers.CalculateAllIgnoresAreas` | daguerre/helpers.py:98-105 | when no `calculate` of the pipeline uses areas, folding with None gives the same size as with the areas |
| `Helpers.FetchedAreasSuffice` | daguerre/helpers.py:98-101 | fetching areas only when some `calculate` needs them changes no reported size |
| `Helpers.PathInfo` | daguerre/helpers.py:92-122 | an image that cannot be opened gives the empty dictionary; otherwise the size is the fold of `calculate` over the pipeline with the stored areas |
| `Helpers.InfoDict` | daguerre/helpers.py:168-190 | an empty storage path gives the empty dictionary, a stored adjusted image wins, and otherwise the path's information is computed |
| `Helpers.AdjustedAllWithoutFill` | daguerre/helpers.py:213-214 | without a Fill stage, the stage-by-stage size of `adjust` is the fold of `calculate` |
| `Helpers.AdjustAll` | daguerre/helpers.py:205-214 | running every `adjust` in turn produces the stage-by-stage size (Fill as written), and fails where that fails; without a Fill stage this is exactly the size `_path_info_dict` reports |
| `Helpers.ToQuerydict` | daguerre/helpers.py:78-90 | the query holds the requested string under `r`, and the hash under `s` exactly when secure |
| `Helpers.FromQuerydict` | daguerre/helpers.py:150-166 | a present hash that does not match fails, a missing one fails only when secure; otherwise the requested string is split into the pieces it joins |
| `Helpers.QuerydictRoundTrip` | daguerre/helpers.py:78-166 | reading a query back gives the pipeline it was made from, unless a hash is demanded that was not added |
| `Helpers.PathOf` | daguerre/helpers.py:257-261 | an item has a path exactly when the lookup finds a non-empty string or a file with a non-empty name |
| `Helpers.Partition` | daguerre/helpers.py:256-264 | every item with a path is listed under that path in iteration order, and every other item gets the empty dictionary |
| `Helpers.SettleStored` | daguerre/helpers.py:283-293 | every pending path that has a stored adjusted image is settled with its information |
| `Helpers.SettleComputed` | daguerre/helpers.py:296-301 | every path still pending is settled with its computed information and nothing stays pending, unless `_path_info_dict` raises for one of them; that error escapes and is some item's expected error |
| `Helpers.InfoDicts` | daguerre/helpers.py:281-303 | succeeds exactly when no item's path lacks a stored image and fails in `_path_info_dict`; a failure is some such item's error; a success gives one pair per item in input order, each with its stored, computed or empty information, and nothing stays pending |
| `Helpers.Collect` | daguerre/helpers.py:303 | the closing list succeeds exactly when every item has information, pairing each item with it; otherwise it is a KeyError on the first item without |
| `Helpers.PartitionAndSettle` | daguerre/helpers.py:256-301 | the partition and both guarded passes leave every item settled, or end with the error of some item's `_path_info_dict`; an empty input settles nothing |
| `Helpers.InfoDictsAsWritten` | daguerre/helpers.py:238-303 | a re-iterable input behaves as `InfoDicts`: a `_path_info_dict` error escapes, else one pair per item with its expected information; a one-shot iterator gives a KeyError on its first item |
| `LegacyHelpers.NewHelper` | daguerre/utils/adjustment_helpers.py:33-41 | `adjustment` is removed from the keywords and defaults to `fit`; all other keywords are kept |
| `LegacyHelpers.StripNullKey` | daguerre/utils/adjustment_helpers.py:210-215 | stripping `__isnull` from a null key gives its plain key, and leaves other keys alone |
| `LegacyHelpers.QueryKwargs` | daguerre/utils/adjustment_helpers.py:73-91 | the adjustment and path, then for each size and the crop exactly one of `requested_k` (its value) and `requested_k__isnull` (True) |
| `LegacyHelpers.CreationKwargs` | daguerre/utils/adjustment_helpers.py:210-215 | every null key becomes its plain key with None and every other key is copied; no null key survives |
| `LegacyHelpers.CreationSizes` | daguerre/utils/adjustment_helpers.py:79-84 | the adjusted image is created with each size as given, or None when not given |
| `LegacyHelpers.CreationRest` | daguerre/utils/adjustment_helpers.py:85-89 | the adjusted image is created with the crop area or None, the adjustment and the path |
| `LegacyHelpers.ParamMapInjective` | daguerre/utils/adjustment_helpers.py:22-31 | no two keywords share a short name and every int param has one |
| `LegacyHelpers.Rename` | daguerre/utils/adjustment_helpers.py:112-113 | each keyword's value sits under its short name, and nothing else is present |
| `LegacyHelpers.ToQuerydict` | daguerre/utils/adjustment_helpers.py:104-115 | a keyword without a short name is a KeyError; otherwise the keywords, the adjustment and, when secure, the hash appear under their short names |
| `LegacyHelpers.Incoming` | daguerre/utils/adjustment_helpers.py:119-128 | a bad integer fails; otherwise exactly the keywords whose short names are present are read back |
| `LegacyHelpers.FromQuerydict` | daguerre/utils/adjustment_helpers.py:117-136 | a bad integer or a mismatching hash fails, a missing hash fails exactly when secure; otherwise the helper is built from the keywords without the hash |
| `LegacyHelpers.ReadBackRenamed` | daguerre/utils/adjustment_helpers.py:120-128 | keywords sent under their short names read back as themselves |
| `LegacyHelpers.QuerydictRoundTrip` | daguerre/utils/adjustment_helpers.py:104-136 | reading back the query of a helper gives the same helper, unless a hash is demanded that was not added |
| `Models.ImagePath` | daguerre/models.py:136-144 | the configured path when it has at most 13 characters, otherwise `dg`; never longer than 13 |
| `Models.ReplaceAdFacts` | daguerre/models.py:150-151 | replacing `ad` changes only a `d` after an `a`, into `g`, and leaves no `ad` behind |
| `Models.UploadToParts` | daguerre/models.py:117-153 | the path splits into the prefix, two 2-character directories from the digest that hold no `ad`, and the file name |
| `Models.AreaSlugs` | daguerre/models.py:108-110 | every class whose `adjust` may read areas has its slug selected |
| `Models.AreaSlugsOnly` | daguerre/models.py:108-110 | only such slugs are selected |
| `Models.AreaSlugsOfRegistry` | daguerre/models.py:106-110 | over the registry, every slug except `fit` is selected |
| `Models.Survivors` | daguerre/models.py:106-114 | exactly the stored images that are not stale remain |
| `Models.CropDroppedFitKept` | daguerre/tests/unit/test_models.py:6-27 | saving an area drops a stored `crop|50|50` of its image and keeps `fit|50|50` |
| `SeamCarve.Clip` | daguerre/seam_carve.py:38 | a clipped energy lies in [0, 255] and keeps values already in range |
| `SeamCarve.WindowCases` | daguerre/seam_carve.py:52-54 | the wrapping slice picks the in-bounds neighbours, except at x = 0 in a 2-wide row, where it picks only the right neighbour |
| `SeamCarve.NextRow` | daguerre/seam_carve.py:49-55 | each cell is the least of its window in the previous row plus its clipped energy |
| `SeamCarve.GetCost` | daguerre/seam_carve.py:33-56 | one cost row per energy row, each as wide as the grid, the first equal to the clipped energy |
| `SeamCarve.CostRecurrence` | daguerre/seam_carve.py:46-55 | each later row follows from the row before it |
| `SeamCarve.RulesAgree` | daguerre/seam_carve.py:52-54 | the wrapping slice and the in-bounds window give the same cost unless rows are 2 wide |
| `SeamCarve.CostBounds` | daguerre/seam_carve.py:38-55 | every cost of row y lies between 0 and 255 * (y + 1) |
| `SeamCarve.Step` | daguerre/seam_carve.py:99-106 | the step picks the first least cost among the in-bounds columns x-1, x, x+1 |
| `SeamCarve.FirstMinIndex` | daguerre/seam_carve.py:90-96 | the bottom column is the first index of the least value of the last cost row |
| `SeamCarve.GetSeam` | daguerre/seam_carve.py:87-109 | one cell per row from top to bottom, each a greedy step from the one below, inside the grid, moving at most one column per row |
| `SeamCarve.SeamEnergyIsLeastCost` | daguerre/seam_carve.py:87-109 | the greedy seam's energy equals the least cost of the last row |
| `SeamCarve.LeastCostIsLowerBound` | daguerre/seam_carve.py:46-55 | no connected top-to-bottom path has less energy than the least cost of the last row |
| `SeamCarve.SeamIsOptimal` | daguerre/seam_carve.py:87-109 | over the in-bounds cost, the greedy seam is a connected path of least energy |
| `SeamCarve.NarrowRowMissesCheapestSeam` | daguerre/seam_carve.py:53-54 | on a 2-wide energy grid the wrapping slice leads `get_seam` to a seam of energy 1 while one of energy 0 exists |
| `SeamCarve.DeleteSeam` | daguerre/seam_carve.py:112-117 | the reshape succeeds exactly when the mask keeps one cell fewer per row, and then has the same height and one column less |
| `SeamCarve.DeleteSeamRemovesOnePerRow` | daguerre/seam_carve.py:112-117 | deleting a seam from `get_seam` removes exactly its cell from each row and keeps the rest in order |

## Left out

- Pixel work is left out: PIL's `resize`, `crop` and `copy`, and the EXIF-aware size and resize helpers. An image is its size; `adjust` returns the calls it would make.
- Floating point is left out. Ratios are exact; `round` is only specified within half a unit.
- Hashing is left out. `make_hash`/`make_security_hash` (SHA-1) and the MD5 digest of `upload_to` are uninterpreted inputs.
- The ORM, storage and cache are left out: `AdjustedImage` lookups, `get_areas`, `get_image` and `get_crop_area`, and the race handling of daguerre/helpers.py:225-233. Their results become parameters, such as the stored information of each path and the crop area found.
- `adjustment_for_image`, the ORM parts of both `info_dict` methods, `_adjusted_image_info_dict`, file names, URLs and `reverse` are left out, because they are storage and web plumbing.
- `serialize`/`deserialize` are left out because no file of this model defines them. The requested string's pieces are inputs.
- `recalculate_cost`, `carve_width` and `seam_carve` are left out because they recompute scipy energy of the carved image. The energy grid is an integer input.
- Web, admin, template tags, middleware, management commands, migrations, `validators.py` and `convert_filetype` are left out as plumbing.
- Dictionary iteration order is left out. Maps are unordered; where order is visible (the registry, the areas) sequences are used.
- The memoisation of the earlier `Adjustment.adjust` is left out. It returns `self._adjust()` in any case, and that is what is modelled.
- `Text.ParseDecimal`: reads plain decimal literals only. Exponents ("1e3"), "inf" and "nan" are refused, and the binary rounding of a value such as "0.1" is not modelled: decimals are exact.
- `Text.ParseInt`: reads ASCII digits and strips ASCII white space only; the Unicode digits `int()` accepts in a unicode string are refused, and non-ASCII white space such as U+00A0, which `int()` and `float()` strip from a unicode string, is kept and makes the literal malformed.
- `Arith.RoundDiv`: the tie rule of `round` differs between Python 2 (away from zero) and Python 3 (to even). The contract promises only the half-unit bound.
- `SeamCarve.DeleteSeam`: requires a width of at least 1, and leaves out numpy's negative indices in the mask.
- `SeamCarve.GetCost`: requires a rectangular grid of at least one row, as a numpy image array is.
- `SeamCarve.GetSeam`: requires a rectangular grid of at least one row, as the cost of an image is.
- `SeamCarve.SeamIsOptimal`: optimality is proved for the in-bounds window. With the code's wrapping slice it fails for 2-wide rows; see "## Findings".
- `Legacy.LegacyCalculate`: requires a source of at least 1x1, as an image opened by PIL from a file has. The same holds for the other `Legacy` members.
- `LegacyHelpers.CreationKwargs`: when both a plain key and its `__isnull` key are present, the result depends on dictionary order. The model lets None win, and the lookup keywords never hold both.
- `Adjustments.Adjust`: requires a source of non-negative size, as an image has.
- `Helpers.AdjustAll`: requires an image of non-negative size, and stops with an error where the imaging library would refuse a negative size.
- `Models.UploadToParts`: requires a digest of at least four characters with no `/`, as an MD5 hex digest is.
- `Helpers.RequestedRoundTrip`: requires that no serialised adjustment contains `>`.
- `LegacyHelpers.QuerydictRoundTrip`: holds for helpers whose keywords survive a URL: integers for the sizes, strings elsewhere, each with a short name.

## Findings

| source | as written | input that shows it | evidently intended | confidence | as-written member | corrected member |
|---|---|---|---|---|---|---|
| daguerre/adjustments.py:344-348 | `Fill.adjust` crops to the ratio w:h, then applies `Fit(width=w, height=h)`. After truncation the crop's ratio is not exactly w:h, so Fit rounds one side below the target | `Fill(width=3, height=4)` on a 100x5 image: `calculate` gives 3x4, `adjust` gives 2x4 | the image has the size `calculate` reports (the class documentation says it is resized "to the actual requested dimensions") | not executed | `AdjustmentExamples.FillAsWrittenShrinks` | `Adjustments.AdjustFill` |
| daguerre/adjustments.py:344-348 | the ratio crop can truncate a side to 0, and the following Fit divides by that crop's zero height | `Fill(width=100, height=1)` on a 1x100 image: the ratio crop is 1x0 and Fit raises ZeroDivisionError | a 100x1 image, as `calculate` reports | not executed | `AdjustmentExamples.FillAsWrittenDividesByZero` | `Adjustments.AdjustFill` |
| daguerre/helpers.py:238-303 | `__init__` keeps `list(iterable)` but partitions by looping over `iterable` again; a one-shot iterator is exhausted by then, so nothing is partitioned and the closing list raises KeyError | `BulkAdjustmentHelper(iter([item]), 'image')`: `info_dicts()` raises KeyError for `item` | the partition loops over the stored list, giving one pair per item | not executed | `Helpers.InfoDictsAsWritten` | `Helpers.InfoDicts` |
| daguerre/seam_carve.py:53-54 | for x = 0 the slice `last_row[-1:2]` wraps to `last_row[1:2]` in a 2-wide row, which is non-empty, so `last_row[0]`, the cell directly above, is never considered | energy `[[0, 9], [0, 1]]`: the cost is `[[0, 9], [9, 1]]` and `get_seam` returns the seam of energy 1, although column 0 has energy 0 | the least of the in-bounds neighbours, as the comment above the line says | not executed | `SeamCarve.NarrowRowMissesCheapestSeam` | `SeamCarve.SeamIsOptimal` |
