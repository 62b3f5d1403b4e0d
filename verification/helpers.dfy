/**
 * The pure parts of the adjustment helpers (daguerre/helpers.py): the
 * requested string of a pipeline, the `uses_areas` aggregation, the size
 * reported for a path (a left fold of `calculate`), the query-string
 * security decision, and the bulk helper's partition of items by path.
 */
module Helpers {
  import opened Wrappers
  import Text
  import opened Areas
  import opened Adjustments

  /** `ADJUSTMENT_SEP`. */
  const Sep: char := '>'

  /** The requested string: the serialised adjustments joined by '>'. */
  function Requested(serialized: seq<string>): string {
    Text.Join(serialized, Sep)
  }

  /** The pieces `from_querydict` rebuilds the adjustments from. */
  function RequestedParts(requested: string): (parts: seq<string>)
    ensures |parts| >= 1 && forall p | p in parts :: Sep !in p
    ensures Requested(parts) == requested
  {
    Text.JoinSplit(requested, Sep);
    Text.Split(requested, Sep)
  }

  /** Splitting the requested string gives back the serialised adjustments. */
  lemma RequestedRoundTrip(serialized: seq<string>)
    requires |serialized| >= 1 && forall s | s in serialized :: Sep !in s
    ensures RequestedParts(Requested(serialized)) == serialized
  {
    Text.SplitJoin(serialized, Sep);
  }

  /** `adjust_uses_areas`: some adjustment's `adjust` is not flagged as ignoring areas. */
  predicate AdjustNeedsAreas(adjs: seq<Adjustment>) {
    exists i | 0 <= i < |adjs| :: AdjustUsesAreas(KindOf(adjs[i]))
  }

  /** `calc_uses_areas`: some adjustment's `calculate` is not flagged as ignoring areas. */
  predicate CalcNeedsAreas(adjs: seq<Adjustment>) {
    exists i | 0 <= i < |adjs| :: CalcUsesAreas(KindOf(adjs[i]))
  }

  /** The areas a stage receives: the stored ones when the flag asks for them, else None. */
  function AreasFor(needed: bool, stored: seq<Area>): Option<seq<Area>> {
    if needed then Some(stored) else None
  }

  /** `calculate` of each adjustment in turn, starting from `d` (the loop in `_path_info_dict`). */
  function CalculateAll(adjs: seq<Adjustment>, d: Dims, areas: Option<seq<Area>>): Result<Dims, CalcError>
    decreases |adjs|
  {
    if |adjs| == 0 then Ok(d)
    else
      var next :- Calculate(adjs[0], d, areas);
      CalculateAll(adjs[1..], next, areas)
  }

  /**
   * Passing None instead of the areas changes nothing when no `calculate`
   * of the pipeline uses them, so the query for areas can be skipped.
   */
  lemma {:induction false} CalculateAllIgnoresAreas(adjs: seq<Adjustment>, d: Dims, areas: Option<seq<Area>>)
    requires !CalcNeedsAreas(adjs)
    ensures CalculateAll(adjs, d, areas) == CalculateAll(adjs, d, None)
    decreases |adjs|
  {
    if |adjs| > 0 {
      CalcIgnoresAreas(adjs[0], d, areas);
      var next := Calculate(adjs[0], d, areas);
      if next.Ok? {
        assert !CalcNeedsAreas(adjs[1..]) by {
          forall i | 0 <= i < |adjs[1..]| ensures !CalcUsesAreas(KindOf(adjs[1..][i])) {
            assert adjs[1..][i] == adjs[i + 1];
          }
        }
        CalculateAllIgnoresAreas(adjs[1..], next.value, areas);
      }
    }
  }

  /** The information dictionary: empty, or the size of the adjusted image. */
  datatype Info = NoInfo | Sized(width: int, height: int)

  /**
   * `_path_info_dict`: an image that cannot be opened (`image` is None, the
   * IOError) gives the empty dictionary; otherwise the size is the fold of
   * `calculate`, with the stored areas only when some stage needs them.
   */
  function PathInfo(adjs: seq<Adjustment>, image: Option<Dims>, stored: seq<Area>): (r: Result<Info, CalcError>)
    ensures image.None? ==> r == Ok(NoInfo)
    ensures image.Some? ==> (r.Ok? <==> CalculateAll(adjs, image.value, Some(stored)).Ok?)
    ensures image.Some? && r.Ok? ==>
      var d := CalculateAll(adjs, image.value, Some(stored)).value;
      r.value == Sized(d.width, d.height)
  {
    if image.None? then Ok(NoInfo)
    else
      var areas := AreasFor(CalcNeedsAreas(adjs), stored);
      FetchedAreasSuffice(adjs, image.value, stored);
      var d :- CalculateAll(adjs, image.value, areas);
      Ok(Sized(d.width, d.height))
  }

  /** The areas `_path_info_dict` passes give the same fold as the stored areas. */
  lemma FetchedAreasSuffice(adjs: seq<Adjustment>, d: Dims, stored: seq<Area>)
    ensures CalculateAll(adjs, d, AreasFor(CalcNeedsAreas(adjs), stored)) == CalculateAll(adjs, d, Some(stored))
  {
    if !CalcNeedsAreas(adjs) {
      CalculateAllIgnoresAreas(adjs, d, Some(stored));
    }
  }

  /**
   * `AdjustmentHelper.info_dict`: nothing for an empty storage path, the
   * stored adjusted image's size when one exists, else the path's info.
   */
  function InfoDict(storagePath: string, stored: Option<Info>, pathInfo: Result<Info, CalcError>): (r: Result<Info, CalcError>)
    ensures |storagePath| == 0 ==> r == Ok(NoInfo)
    ensures |storagePath| > 0 && stored.Some? ==> r == Ok(stored.value)
    ensures |storagePath| > 0 && stored.None? ==> r == pathInfo
  {
    if |storagePath| == 0 then Ok(NoInfo)
    else if stored.Some? then Ok(stored.value)
    else pathInfo
  }

  /** An image of non-negative size, as the imaging library requires. */
  predicate Drawable(d: Dims) {
    d.width >= 0 && d.height >= 0
  }

  /**
   * The size one stage of `AdjustmentHelper.adjust` produces: what
   * `calculate` reports, except for Fill, whose `adjust` as written applies
   * a ratio crop and a Fit.
   */
  function StageResult(adj: Adjustment, d: Dims, areas: Option<seq<Area>>): (r: Result<Dims, CalcError>)
    ensures !adj.Fill? ==> r == Calculate(adj, d, areas)
    ensures adj.Fill? ==> r == FillAsWrittenDims(adj, d)
  {
    if adj.Fill? then FillAsWrittenDims(adj, d) else Calculate(adj, d, areas)
  }

  /** `StageResult` of each adjustment in turn, starting from `d`. */
  function AdjustedAll(adjs: seq<Adjustment>, d: Dims, areas: Option<seq<Area>>): Result<Dims, CalcError>
    decreases |adjs|
  {
    if |adjs| == 0 then Ok(d)
    else
      var next :- StageResult(adjs[0], d, areas);
      AdjustedAll(adjs[1..], next, areas)
  }

  predicate HasFill(adjs: seq<Adjustment>) {
    exists i | 0 <= i < |adjs| :: adjs[i].Fill?
  }

  /** Without a Fill stage, the sizes `adjust` produces are the ones `calculate` reports. */
  lemma {:induction false} AdjustedAllWithoutFill(adjs: seq<Adjustment>, d: Dims, areas: Option<seq<Area>>)
    requires !HasFill(adjs)
    ensures AdjustedAll(adjs, d, areas) == CalculateAll(adjs, d, areas)
    decreases |adjs|
  {
    if |adjs| > 0 {
      assert !adjs[0].Fill?;
      var next := Calculate(adjs[0], d, areas);
      if next.Ok? {
        assert !HasFill(adjs[1..]) by {
          forall i | 0 <= i < |adjs[1..]| ensures !adjs[1..][i].Fill? {
            assert adjs[1..][i] == adjs[i + 1];
          }
        }
        AdjustedAllWithoutFill(adjs[1..], next.value, areas);
      }
    }
  }

  /**
   * `AdjustmentHelper.adjust` on an opened image: every adjustment's
   * `adjust` in turn, with the stored areas only when some `adjust` needs
   * them. The image produced has the size of the stage-by-stage fold; when
   * no stage is a Fill, that is the size `_path_info_dict` reports.
   */
  method AdjustAll(adjs: seq<Adjustment>, image: Dims, stored: seq<Area>) returns (r: Result<seq<Op>, CalcError>)
    requires Drawable(image)
    ensures r.Ok? ==> AdjustedAll(adjs, image, Some(stored)) == Ok(Run(image, r.value))
    ensures AdjustedAll(adjs, image, Some(stored)).Err? ==> r.Err?
    ensures r.Ok? && !HasFill(adjs) ==> CalculateAll(adjs, image, Some(stored)) == Ok(Run(image, r.value))
    ensures r.Ok? && !HasFill(adjs) ==>
      PathInfo(adjs, Some(image), stored) == Ok(Sized(Run(image, r.value).width, Run(image, r.value).height))
    ensures !HasFill(adjs) && CalculateAll(adjs, image, Some(stored)).Err? ==> r.Err?
  {
    AdjustedAllWithoutFillIf(adjs, image, Some(stored));
    var areas := AreasFor(AdjustNeedsAreas(adjs), stored);
    var ops: seq<Op> := [];
    var d := image;
    var k := 0;
    while k < |adjs|
      invariant 0 <= k <= |adjs|
      invariant d == Run(image, ops)
      invariant AdjustedAll(adjs, image, Some(stored)) == AdjustedAll(adjs[k..], d, Some(stored))
    {
      if !Drawable(d) {
        return Err(NegativeSize);
      }
      var step := Adjust(adjs[k], d, areas);
      if step.Err? {
        return Err(step.error);
      }
      StageSize(adjs[k], d, areas, stored, adjs);
      assert StageResult(adjs[k], d, Some(stored)) == Ok(Run(d, step.value));
      AdjustedStep(adjs, k, d, Some(stored), Run(d, step.value));
      RunAppend(image, ops, step.value);
      ops := ops + step.value;
      d := Run(d, step.value);
      k := k + 1;
    }
    assert adjs[k..] == [];
    r := Ok(ops);
    AdjustedWithoutFill(adjs, image, stored, d);
  }

  /** One stage of the fold: a successful stage hands its size to the rest. */
  lemma AdjustedStep(adjs: seq<Adjustment>, k: int, d: Dims, areas: Option<seq<Area>>, next: Dims)
    requires 0 <= k < |adjs| && StageResult(adjs[k], d, areas) == Ok(next)
    ensures AdjustedAll(adjs[k..], d, areas) == AdjustedAll(adjs[k + 1..], next, areas)
  {
    assert adjs[k..][0] == adjs[k] && adjs[k..][1..] == adjs[k + 1..];
  }

  /** Without a Fill, the size of the fold is the size `_path_info_dict` reports. */
  lemma AdjustedWithoutFill(adjs: seq<Adjustment>, image: Dims, stored: seq<Area>, d: Dims)
    requires AdjustedAll(adjs, image, Some(stored)) == Ok(d)
    ensures !HasFill(adjs) ==> CalculateAll(adjs, image, Some(stored)) == Ok(d)
    ensures !HasFill(adjs) ==> PathInfo(adjs, Some(image), stored) == Ok(Sized(d.width, d.height))
  {
    AdjustedAllWithoutFillIf(adjs, image, Some(stored));
  }

  lemma AdjustedAllWithoutFillIf(adjs: seq<Adjustment>, d: Dims, areas: Option<seq<Area>>)
    ensures !HasFill(adjs) ==> AdjustedAll(adjs, d, areas) == CalculateAll(adjs, d, areas)
  {
    if !HasFill(adjs) {
      AdjustedAllWithoutFill(adjs, d, areas);
    }
  }

  /** A stage computes the same size with the areas it is given and with the stored ones. */
  lemma StageSize(adj: Adjustment, d: Dims, areas: Option<seq<Area>>, stored: seq<Area>, adjs: seq<Adjustment>)
    requires adj in adjs && areas == AreasFor(AdjustNeedsAreas(adjs), stored)
    ensures Calculate(adj, d, areas) == Calculate(adj, d, Some(stored))
  {
    if CalcUsesAreas(KindOf(adj)) {
      var i :| 0 <= i < |adjs| && adjs[i] == adj;
      assert AdjustUsesAreas(KindOf(adjs[i]));
    } else {
      CalcIgnoresAreas(adj, d, areas);
      CalcIgnoresAreas(adj, d, Some(stored));
    }
  }

  lemma {:induction false} RunAppend(d: Dims, a: seq<Op>, b: seq<Op>)
    ensures Run(d, a + b) == Run(Run(d, a), b)
    decreases |a|
  {
    if |a| > 0 {
      assert (a + b)[1..] == a[1..] + b;
      RunAppend(Apply(d, a[0]), a[1..], b);
    } else {
      assert a + b == b;
    }
  }

  // ------------------------------------------------------------------ query strings

  /** Why `from_querydict` refuses a query. */
  datatype QueryError = SecurityFailed | SecurityMissing | MissingRequested

  /** `make_security_hash` of a kwargs dictionary, an uninterpreted function. */
  type KwargsHash = map<string, string> -> string

  /** `to_querydict`: the requested string under 'r', and its hash under 's' when secure. */
  function ToQuerydict(requested: string, secure: bool, hash: KwargsHash): (qd: map<string, string>)
    ensures qd.Keys == if secure then {"r", "s"} else {"r"}
    ensures qd["r"] == requested
    ensures secure ==> qd["s"] == hash(map["requested" := requested])
  {
    var kwargs := map["requested" := requested];
    if secure then map["r" := requested, "s" := hash(kwargs)] else map["r" := requested]
  }

  /** The verbose kwargs read back from a query, without the security entry. */
  function Verbose(qd: map<string, string>): map<string, string> {
    if "r" in qd then map["requested" := qd["r"]] else map[]
  }

  /**
   * `from_querydict`: a hash that is present must match the rest of the
   * query; a missing hash is refused only when `secure` is set; the
   * requested string is then split on '>'.
   */
  function FromQuerydict(qd: map<string, string>, secure: bool, hash: KwargsHash): (r: Result<seq<string>, QueryError>)
    ensures r == Err(SecurityFailed) <==> "s" in qd && qd["s"] != hash(Verbose(qd))
    ensures r == Err(SecurityMissing) <==> "s" !in qd && secure
    ensures r == Err(MissingRequested) <==>
      ("s" in qd ==> qd["s"] == hash(Verbose(qd))) && ("s" !in qd ==> !secure) && "r" !in qd
    ensures r.Ok? ==> "r" in qd && Requested(r.value) == qd["r"]
  {
    if "s" in qd && qd["s"] != hash(Verbose(qd)) then Err(SecurityFailed)
    else if "s" !in qd && secure then Err(SecurityMissing)
    else if "r" !in qd then Err(MissingRequested)
    else Ok(RequestedParts(qd["r"]))
  }

  /**
   * A query made by `to_querydict` is accepted by `from_querydict` unless a
   * hash is demanded that was not added, and yields the adjustments it was
   * made from.
   */
  lemma QuerydictRoundTrip(serialized: seq<string>, secure: bool, demand: bool, hash: KwargsHash)
    requires |serialized| >= 1 && forall s | s in serialized :: Sep !in s
    ensures var qd := ToQuerydict(Requested(serialized), secure, hash);
      FromQuerydict(qd, demand, hash) == if secure || !demand then Ok(serialized) else Err(SecurityMissing)
  {
    var qd := ToQuerydict(Requested(serialized), secure, hash);
    assert Verbose(qd) == map["requested" := Requested(serialized)];
    RequestedRoundTrip(serialized);
  }

  // ------------------------------------------------------------------ bulk helper

  /** What `lookup_func` finds on an item. */
  datatype Lookup = PathText(s: string) | ImageFileNamed(name: string) | NoValue | OtherValue

  /** The storage path of a lookup result: a non-empty string, after taking a file's name. */
  function PathOf(l: Lookup): (p: Option<string>)
    ensures p.Some? ==> |p.value| > 0
    ensures p.Some? <==> (l.PathText? && |l.s| > 0) || (l.ImageFileNamed? && |l.name| > 0)
  {
    match l
    case PathText(s) => if |s| > 0 then Some(s) else None
    case ImageFileNamed(n) => if |n| > 0 then Some(n) else None
    case _ => None
  }

  /** The items whose path is `p`, in iteration order. */
  function WithPath<Item>(items: seq<Item>, lookup: Item -> Lookup, p: string): (r: seq<Item>)
    ensures forall it | it in r :: it in items && PathOf(lookup(it)) == Some(p)
    decreases |items|
  {
    if |items| == 0 then []
    else
      var init := WithPath(items[..|items| - 1], lookup, p);
      var last := items[|items| - 1];
      init + if PathOf(lookup(last)) == Some(p) then [last] else []
  }

  /**
   * `BulkAdjustmentHelper.__init__`: each item with a path is appended to
   * `remaining[path]`; every other item gets the empty dictionary.
   */
  method Partition<Item(==)>(items: seq<Item>, lookup: Item -> Lookup)
    returns (remaining: map<string, seq<Item>>, adjusted: map<Item, Info>)
    ensures forall p :: p in remaining <==> exists i | 0 <= i < |items| :: PathOf(lookup(items[i])) == Some(p)
    ensures forall p | p in remaining :: remaining[p] == WithPath(items, lookup, p)
    ensures forall i | 0 <= i < |items| && PathOf(lookup(items[i])).None? :: items[i] in adjusted
    ensures forall it | it in adjusted :: it in items && PathOf(lookup(it)).None? && adjusted[it] == NoInfo
  {
    remaining, adjusted := map[], map[];
    var k := 0;
    while k < |items|
      invariant 0 <= k <= |items|
      invariant Grouped(items[..k], lookup, remaining)
      invariant forall i | 0 <= i < k && PathOf(lookup(items[i])).None? :: items[i] in adjusted
      invariant forall it | it in adjusted :: it in items && PathOf(lookup(it)).None? && adjusted[it] == NoInfo
    {
      var item := items[k];
      GroupedStep(items[..k], lookup, remaining, item);
      remaining := Enqueue(remaining, lookup, item);
      if PathOf(lookup(item)).None? {
        adjusted := adjusted[item := NoInfo];
      }
      assert items[..k + 1] == items[..k] + [item];
      k := k + 1;
    }
    assert items[..k] == items;
  }

  /** `remaining` lists, under each path met in `prefix`, exactly the items with that path. */
  ghost predicate Grouped<Item>(prefix: seq<Item>, lookup: Item -> Lookup, remaining: map<string, seq<Item>>) {
    && (forall p :: p in remaining <==> Met(prefix, lookup, p))
    && (forall p | p in remaining :: remaining[p] == WithPath(prefix, lookup, p))
  }

  /** Some item of `prefix` has path `p`. */
  ghost predicate Met<Item>(prefix: seq<Item>, lookup: Item -> Lookup, p: string) {
    exists i | 0 <= i < |prefix| :: PathOf(lookup(prefix[i])) == Some(p)
  }

  /** `remaining.setdefault(path, []).append(item)` when the item has a path. */
  function Enqueue<Item>(remaining: map<string, seq<Item>>, lookup: Item -> Lookup, item: Item): (r: map<string, seq<Item>>)
    ensures PathOf(lookup(item)).None? ==> r == remaining
    ensures PathOf(lookup(item)).Some? ==> r.Keys == remaining.Keys + {PathOf(lookup(item)).value}
  {
    var path := PathOf(lookup(item));
    if path.None? then remaining
    else
      var before := if path.value in remaining then remaining[path.value] else [];
      remaining[path.value := before + [item]]
  }

  /** Enqueuing the next item keeps the grouping exact. */
  lemma GroupedStep<Item>(prefix: seq<Item>, lookup: Item -> Lookup, remaining: map<string, seq<Item>>, item: Item)
    requires Grouped(prefix, lookup, remaining)
    ensures Grouped(prefix + [item], lookup, Enqueue(remaining, lookup, item))
  {
    var next := prefix + [item];
    var r := Enqueue(remaining, lookup, item);
    forall p ensures p in r <==> Met(next, lookup, p) {
      MetStep(prefix, lookup, item, p);
    }
    forall p | p in r ensures r[p] == WithPath(next, lookup, p) {
      assert next[..|next| - 1] == prefix;
      if p !in remaining {
        WithPathAbsent(prefix, lookup, p);
      }
    }
  }

  /** A path is met in `prefix + [item]` when it is met in `prefix` or is the item's. */
  lemma MetStep<Item>(prefix: seq<Item>, lookup: Item -> Lookup, item: Item, p: string)
    ensures Met(prefix + [item], lookup, p) <==> Met(prefix, lookup, p) || PathOf(lookup(item)) == Some(p)
  {
    var next := prefix + [item];
    if Met(prefix, lookup, p) {
      var i :| 0 <= i < |prefix| && PathOf(lookup(prefix[i])) == Some(p);
      assert next[i] == prefix[i];
    }
    if PathOf(lookup(item)) == Some(p) {
      assert next[|prefix|] == item;
    }
    if Met(next, lookup, p) {
      var i :| 0 <= i < |next| && PathOf(lookup(next[i])) == Some(p);
      if i < |prefix| {
        assert next[i] == prefix[i];
      }
    }
  }

  /** No item of the prefix has path `p`, so none is listed under it. */
  lemma {:induction false} WithPathAbsent<Item>(items: seq<Item>, lookup: Item -> Lookup, p: string)
    requires forall i | 0 <= i < |items| :: PathOf(lookup(items[i])) != Some(p)
    ensures WithPath(items, lookup, p) == []
    decreases |items|
  {
    if |items| > 0 {
      WithPathAbsent(items[..|items| - 1], lookup, p);
    }
  }

  /** Every item with path `p` is listed under `p`. */
  lemma {:induction false} WithPathComplete<Item>(items: seq<Item>, lookup: Item -> Lookup, p: string, i: int)
    requires 0 <= i < |items| && PathOf(lookup(items[i])) == Some(p)
    ensures items[i] in WithPath(items, lookup, p)
    decreases |items|
  {
    if i < |items| - 1 {
      WithPathComplete(items[..|items| - 1], lookup, p, i);
    }
  }

  /** What `info_dicts` settles path `p` with: the stored adjusted image's information, else `_path_info_dict`. */
  function Source(p: string, stored: map<string, Info>, pathInfo: string -> Result<Info, CalcError>): Result<Info, CalcError> {
    if p in stored then Ok(stored[p]) else pathInfo(p)
  }

  /** The information an item ends up with: the empty dictionary without a path, else its path's. */
  function Expected(l: Lookup, stored: map<string, Info>, pathInfo: string -> Result<Info, CalcError>): Result<Info, CalcError> {
    var p := PathOf(l);
    if p.None? then Ok(NoInfo) else Source(p.value, stored, pathInfo)
  }

  /** Every item is settled: it has its expected information, or its path is still pending. */
  ghost predicate Settled<Item>(items: seq<Item>, lookup: Item -> Lookup, stored: map<string, Info>,
                                pathInfo: string -> Result<Info, CalcError>, remaining: map<string, seq<Item>>,
                                adjusted: map<Item, Info>)
  {
    forall i | 0 <= i < |items| ::
      var p := PathOf(lookup(items[i]));
      (p.Some? && p.value in remaining) ||
      (items[i] in adjusted && Expected(lookup(items[i]), stored, pathInfo) == Ok(adjusted[items[i]]))
  }

  /** Each pending path is some item's path and still lists exactly its items. */
  ghost predicate Pending<Item>(items: seq<Item>, lookup: Item -> Lookup, remaining: map<string, seq<Item>>) {
    forall p | p in remaining :: Met(items, lookup, p) && remaining[p] == WithPath(items, lookup, p)
  }

  /** Settling path `p` with its information `info` keeps the other items settled. */
  lemma SettlePath<Item>(items: seq<Item>, lookup: Item -> Lookup, stored: map<string, Info>,
                         pathInfo: string -> Result<Info, CalcError>, remaining: map<string, seq<Item>>,
                         adjusted: map<Item, Info>, p: string, info: Info)
    requires Pending(items, lookup, remaining) && Settled(items, lookup, stored, pathInfo, remaining, adjusted)
    requires p in remaining && Source(p, stored, pathInfo) == Ok(info)
    ensures
      var adjusted' := adjusted + map it | it in remaining[p] :: info;
      && Pending(items, lookup, remaining - {p})
      && Settled(items, lookup, stored, pathInfo, remaining - {p}, adjusted')
  {
    var adjusted' := adjusted + map it | it in remaining[p] :: info;
    forall i | 0 <= i < |items|
      ensures var q := PathOf(lookup(items[i]));
        (q.Some? && q.value in remaining - {p}) ||
        (items[i] in adjusted' && Expected(lookup(items[i]), stored, pathInfo) == Ok(adjusted'[items[i]]))
    {
      var q := PathOf(lookup(items[i]));
      if q == Some(p) {
        WithPathComplete(items, lookup, p, i);
      } else if items[i] in remaining[p] {
        assert false;
      }
    }
  }

  /**
   * `info_dicts`: paths with a stored adjusted image take its information and
   * the remaining paths are computed. The first `_path_info_dict` that raises
   * ends the call with its error; otherwise nothing stays pending and the
   * result has one pair per item, in the order of the items.
   */
  method InfoDicts<Item(==)>(items: seq<Item>, lookup: Item -> Lookup, stored: map<string, Info>,
                             pathInfo: string -> Result<Info, CalcError>)
    returns (result: Result<seq<(Item, Info)>, CalcError>, remaining: map<string, seq<Item>>)
    ensures result.Ok? <==> forall i | 0 <= i < |items| :: Expected(lookup(items[i]), stored, pathInfo).Ok?
    ensures result.Err? ==> exists i | 0 <= i < |items| :: Expected(lookup(items[i]), stored, pathInfo) == Err(result.error)
    ensures result.Ok? ==>
      && remaining == map[]
      && |result.value| == |items|
      && forall i | 0 <= i < |items| ::
           result.value[i].0 == items[i] && Expected(lookup(items[i]), stored, pathInfo) == Ok(result.value[i].1)
  {
    var adjusted, failed;
    remaining, adjusted := Partition(items, lookup);
    StartSettled(items, lookup, stored, pathInfo, remaining, adjusted);
    remaining, adjusted := SettleStored(items, lookup, stored, pathInfo, remaining, adjusted);
    remaining, adjusted, failed := SettleComputed(items, lookup, stored, pathInfo, remaining, adjusted);
    if failed.Some? {
      result := Err(failed.value);
    } else {
      AllSettled(items, lookup, stored, pathInfo, adjusted);
      result := Ok(seq(|items|, i requires 0 <= i < |items| && items[i] in adjusted => (items[i], adjusted[items[i]])));
    }
  }

  /**
   * The closing list of `info_dicts`, `[(item, adjusted[item]) for item in
   * iterable]`: the first item without information raises KeyError.
   */
  function Collect<Item(==)>(items: seq<Item>, adjusted: map<Item, Info>): (r: Result<seq<(Item, Info)>, Item>)
    ensures r.Ok? <==> forall i | 0 <= i < |items| :: items[i] in adjusted
    ensures r.Ok? ==> |r.value| == |items| && forall i | 0 <= i < |items| :: r.value[i] == (items[i], adjusted[items[i]])
    ensures r.Err? ==>
      exists i | 0 <= i < |items| :: items[i] == r.error && items[i] !in adjusted && forall j | 0 <= j < i :: items[j] in adjusted
    decreases |items|
  {
    if |items| == 0 then Ok([])
    else if items[0] !in adjusted then Err(items[0])
    else
      var rest := Collect(items[1..], adjusted);
      if rest.Err? then
        CollectShift(items, adjusted, rest.error);
        Err(rest.error)
      else
        Ok([(items[0], adjusted[items[0]])] + rest.value)
  }

  /** A missing item found in the tail, after a present head, is the first missing item of the whole list. */
  lemma CollectShift<Item>(items: seq<Item>, adjusted: map<Item, Info>, e: Item)
    requires |items| > 0 && items[0] in adjusted
    requires exists i | 0 <= i < |items| - 1 ::
      items[1..][i] == e && items[1..][i] !in adjusted && forall j | 0 <= j < i :: items[1..][j] in adjusted
    ensures exists i | 0 <= i < |items| :: items[i] == e && items[i] !in adjusted && forall j | 0 <= j < i :: items[j] in adjusted
  {
    var i :| 0 <= i < |items| - 1 &&
      items[1..][i] == e && items[1..][i] !in adjusted && forall j | 0 <= j < i :: items[1..][j] in adjusted;
    forall j | 0 <= j < i + 1 ensures items[j] in adjusted {
      if j > 0 {
        assert items[j] == items[1..][j - 1];
      }
    }
  }

  /** What escapes the bulk helper: a KeyError on an item, or an error `_path_info_dict` raised. */
  datatype BulkError<Item> = KeyError(item: Item) | CalcFailed(error: CalcError)

  /**
   * `BulkAdjustmentHelper` as written: `__init__` keeps `list(iterable)` but
   * partitions by looping over `iterable` again, so a one-shot iterator
   * (`oneShot`) is already exhausted there. Nothing is partitioned, both
   * passes of `info_dicts` are skipped, and its closing list raises KeyError
   * on the first item. A re-iterable input gives `InfoDicts`'s answer.
   */
  method InfoDictsAsWritten<Item(==)>(items: seq<Item>, oneShot: bool, lookup: Item -> Lookup,
                                      stored: map<string, Info>, pathInfo: string -> Result<Info, CalcError>)
    returns (r: Result<seq<(Item, Info)>, BulkError<Item>>)
    ensures !oneShot ==> (r.Ok? <==> forall i | 0 <= i < |items| :: Expected(lookup(items[i]), stored, pathInfo).Ok?)
    ensures !oneShot && r.Err? ==>
      && r.error.CalcFailed?
      && exists i | 0 <= i < |items| :: Expected(lookup(items[i]), stored, pathInfo) == Err(r.error.error)
    ensures !oneShot && r.Ok? ==>
      && |r.value| == |items|
      && forall i | 0 <= i < |items| ::
           r.value[i].0 == items[i] && Expected(lookup(items[i]), stored, pathInfo) == Ok(r.value[i].1)
    ensures oneShot ==> r == if |items| == 0 then Ok([]) else Err(KeyError(items[0]))
  {
    var seen := if oneShot then [] else items;
    var adjusted, failed := PartitionAndSettle(seen, lookup, stored, pathInfo);
    if failed.Some? {
      r := Err(CalcFailed(failed.value));
    } else {
      var c := Collect(items, adjusted);
      r := if c.Ok? then Ok(c.value) else Err(KeyError(c.error));
      if oneShot {
        CollectNothing(items, adjusted);
      } else {
        CollectSettled(items, lookup, stored, pathInfo, adjusted);
      }
    }
  }

  /**
   * `__init__`'s partition of `seen`, then the two guarded passes of
   * `info_dicts`; `failed` is the error of a `_path_info_dict` that raised.
   */
  method PartitionAndSettle<Item(==)>(seen: seq<Item>, lookup: Item -> Lookup, stored: map<string, Info>,
                                      pathInfo: string -> Result<Info, CalcError>)
    returns (adjusted: map<Item, Info>, failed: Option<CalcError>)
    ensures failed.None? ==> Settled(seen, lookup, stored, pathInfo, map[], adjusted)
    ensures failed.Some? ==> exists i | 0 <= i < |seen| :: Expected(lookup(seen[i]), stored, pathInfo) == Err(failed.value)
    ensures |seen| == 0 ==> failed.None? && adjusted.Keys == {}
  {
    var remaining;
    remaining, adjusted := Partition(seen, lookup);
    StartSettled(seen, lookup, stored, pathInfo, remaining, adjusted);
    failed := None;
    if remaining != map[] {
      remaining, adjusted := SettleStored(seen, lookup, stored, pathInfo, remaining, adjusted);
    }
    if remaining != map[] {
      remaining, adjusted, failed := SettleComputed(seen, lookup, stored, pathInfo, remaining, adjusted);
    }
  }

  /** With no item partitioned, the closing list fails on the first item. */
  lemma CollectNothing<Item>(items: seq<Item>, adjusted: map<Item, Info>)
    requires adjusted.Keys == {}
    ensures Collect(items, adjusted) == if |items| == 0 then Ok([]) else Err(items[0])
  {
  }

  /** With every item settled, the closing list pairs each item with its expected information. */
  lemma CollectSettled<Item>(items: seq<Item>, lookup: Item -> Lookup, stored: map<string, Info>,
                             pathInfo: string -> Result<Info, CalcError>, adjusted: map<Item, Info>)
    requires Settled(items, lookup, stored, pathInfo, map[], adjusted)
    ensures var c := Collect(items, adjusted);
      && c.Ok? && |c.value| == |items|
      && forall i | 0 <= i < |items| ::
           c.value[i].0 == items[i] && Expected(lookup(items[i]), stored, pathInfo) == Ok(c.value[i].1)
  {
    AllSettled(items, lookup, stored, pathInfo, adjusted);
  }

  /** The first pass of `info_dicts`: every pending path with a stored adjusted image takes its information. */
  method SettleStored<Item(==)>(items: seq<Item>, lookup: Item -> Lookup, stored: map<string, Info>,
                                pathInfo: string -> Result<Info, CalcError>, remaining0: map<string, seq<Item>>,
                                adjusted0: map<Item, Info>)
    returns (remaining: map<string, seq<Item>>, adjusted: map<Item, Info>)
    requires Pending(items, lookup, remaining0) && Settled(items, lookup, stored, pathInfo, remaining0, adjusted0)
    ensures Pending(items, lookup, remaining) && Settled(items, lookup, stored, pathInfo, remaining, adjusted)
    ensures forall p | p in remaining :: p !in stored
  {
    remaining, adjusted := remaining0, adjusted0;
    var found := set p | p in remaining && p in stored;
    while found != {}
      invariant Pending(items, lookup, remaining) && Settled(items, lookup, stored, pathInfo, remaining, adjusted)
      invariant forall p | p in remaining && p in stored :: p in found
      invariant found <= remaining.Keys
      decreases found
    {
      var p :| p in found;
      SettlePath(items, lookup, stored, pathInfo, remaining, adjusted, p, stored[p]);
      adjusted := adjusted + map it | it in remaining[p] :: stored[p];
      remaining := remaining - {p};
      found := found - {p};
    }
  }

  /**
   * The second pass: every path still pending has its information computed,
   * in the dictionary's (unspecified) order. The first path whose
   * `_path_info_dict` raises stops the pass with that error (`failed`).
   */
  method SettleComputed<Item(==)>(items: seq<Item>, lookup: Item -> Lookup, stored: map<string, Info>,
                                  pathInfo: string -> Result<Info, CalcError>, remaining0: map<string, seq<Item>>,
                                  adjusted0: map<Item, Info>)
    returns (remaining: map<string, seq<Item>>, adjusted: map<Item, Info>, failed: Option<CalcError>)
    requires Pending(items, lookup, remaining0) && Settled(items, lookup, stored, pathInfo, remaining0, adjusted0)
    requires forall p | p in remaining0 :: p !in stored
    ensures failed.None? ==> remaining == map[] && Settled(items, lookup, stored, pathInfo, remaining, adjusted)
    ensures failed.Some? ==>
      exists i | 0 <= i < |items| :: Expected(lookup(items[i]), stored, pathInfo) == Err(failed.value)
  {
    remaining, adjusted, failed := remaining0, adjusted0, None;
    while remaining != map[]
      invariant Pending(items, lookup, remaining) && Settled(items, lookup, stored, pathInfo, remaining, adjusted)
      invariant forall p | p in remaining :: p !in stored
      invariant failed.None?
      decreases remaining.Keys
    {
      var p :| p in remaining;
      var info := pathInfo(p);
      if info.Err? {
        FailedPath(items, lookup, stored, pathInfo, remaining, p);
        failed := Some(info.error);
        return;
      }
      SettlePath(items, lookup, stored, pathInfo, remaining, adjusted, p, info.value);
      adjusted := adjusted + map it | it in remaining[p] :: info.value;
      remaining := remaining - {p};
    }
  }

  /** A pending path with no stored image is some item's path, so its error is that item's. */
  lemma FailedPath<Item>(items: seq<Item>, lookup: Item -> Lookup, stored: map<string, Info>,
                         pathInfo: string -> Result<Info, CalcError>, remaining: map<string, seq<Item>>, p: string)
    requires Pending(items, lookup, remaining) && p in remaining && p !in stored
    ensures exists i | 0 <= i < |items| :: Expected(lookup(items[i]), stored, pathInfo) == pathInfo(p)
  {
    var i :| 0 <= i < |items| && PathOf(lookup(items[i])) == Some(p);
    assert Expected(lookup(items[i]), stored, pathInfo) == pathInfo(p);
  }

  /** Right after the partition, every item with a path is pending and every other one settled. */
  lemma StartSettled<Item>(items: seq<Item>, lookup: Item -> Lookup, stored: map<string, Info>,
                           pathInfo: string -> Result<Info, CalcError>, remaining: map<string, seq<Item>>,
                           adjusted: map<Item, Info>)
    requires forall p :: p in remaining <==> exists i | 0 <= i < |items| :: PathOf(lookup(items[i])) == Some(p)
    requires forall p | p in remaining :: remaining[p] == WithPath(items, lookup, p)
    requires forall i | 0 <= i < |items| && PathOf(lookup(items[i])).None? :: items[i] in adjusted
    requires forall it | it in adjusted :: it in items && PathOf(lookup(it)).None? && adjusted[it] == NoInfo
    ensures Pending(items, lookup, remaining) && Settled(items, lookup, stored, pathInfo, remaining, adjusted)
  {
    forall i | 0 <= i < |items| && PathOf(lookup(items[i])).Some?
      ensures PathOf(lookup(items[i])).value in remaining
    {
    }
  }

  /** With nothing pending, every item has its expected information. */
  lemma AllSettled<Item>(items: seq<Item>, lookup: Item -> Lookup, stored: map<string, Info>,
                         pathInfo: string -> Result<Info, CalcError>, adjusted: map<Item, Info>)
    requires Settled(items, lookup, stored, pathInfo, map[], adjusted)
    ensures forall i | 0 <= i < |items| ::
      items[i] in adjusted && Expected(lookup(items[i]), stored, pathInfo) == Ok(adjusted[items[i]])
  {
  }
}
