/**
 * The pure parts of the earlier engine's helper
 * (daguerre/utils/adjustment_helpers.py): the default adjustment, the
 * database lookup keywords of a request, the keywords an adjusted image is
 * created with, and the query dictionary in both directions.
 */
module LegacyHelpers {
  import opened Wrappers
  import Text
  import opened Areas
  import Legacy

  /** A keyword value: an integer, a string, None, True, or a crop area. */
  datatype KV = KInt(n: int) | KText(s: string) | KNone | KTrue | KArea(area: Area)

  /** The helper's state: the storage path, the adjustment's name and its other keywords. */
  datatype LegacyHelper = LegacyHelper(storagePath: string, kwargs: map<string, KV>, adjustment: KV)

  /** `__init__`: 'adjustment' is popped from the keywords, defaulting to 'fit'. */
  function NewHelper(storagePath: string, kwargs: map<string, KV>): (h: LegacyHelper)
    ensures "adjustment" !in h.kwargs
    ensures forall k | k in kwargs && k != "adjustment" :: k in h.kwargs && h.kwargs[k] == kwargs[k]
    ensures h.kwargs.Keys <= kwargs.Keys
    ensures "adjustment" in kwargs ==> h.adjustment == kwargs["adjustment"]
    ensures "adjustment" !in kwargs ==> h.adjustment == KText(Legacy.DefaultAdjustment)
  {
    var adjustment := if "adjustment" in kwargs then kwargs["adjustment"] else KText(Legacy.DefaultAdjustment);
    LegacyHelper(storagePath, kwargs - {"adjustment"}, adjustment)
  }

  // ------------------------------------------------------------------ lookup keywords

  /**
   * A key of the lookup and creation keywords: `storage_path`,
   * `requested_<name>` or `requested_<name>__isnull`.
   */
  datatype QKey = StoragePath | Requested(name: string) | RequestedIsNull(name: string)

  /** The keyword string a key stands for. */
  function KeyText(k: QKey): string {
    match k
    case StoragePath => "storage_path"
    case Requested(n) => "requested_" + n
    case RequestedIsNull(n) => "requested_" + n + NullSuffix
  }

  const NullSuffix := "__isnull"

  /** The creation keywords drop the last eight characters of a key ending in `__isnull`. */
  function StripNull(key: string): string {
    if Text.EndsWith(key, NullSuffix) then key[..|key| - 8] else key
  }

  /** Only the null keys end in `__isnull`, and stripping the suffix gives the plain key. */
  lemma StripNullKey(k: QKey)
    ensures k.RequestedIsNull? ==> StripNull(KeyText(k)) == KeyText(Requested(k.name))
    ensures k.Requested? && k.name != [] && k.name[|k.name| - 1] != 'l' ==> StripNull(KeyText(k)) == KeyText(k)
  {
    var t := KeyText(k);
    if k.RequestedIsNull? {
      assert t == ("requested_" + k.name) + NullSuffix;
      assert t[..|t| - 8] == "requested_" + k.name;
    } else if k.Requested? && k.name != [] && k.name[|k.name| - 1] != 'l' {
      assert t[|t| - 1] == k.name[|k.name| - 1];
    }
  }

  /** The sizes looked up by name, in the order of the source. */
  const SizeNames: seq<string> := ["width", "height", "max_width", "max_height"]

  /** `self.kwargs.get(key) is not None`. */
  predicate Given(kwargs: map<string, KV>, key: string) {
    key in kwargs && !kwargs[key].KNone?
  }

  /** The lookup key of one size: `requested_<name>` when it is given, else the null key. */
  function SizeKey(kwargs: map<string, KV>, name: string): QKey {
    if Given(kwargs, name) then Requested(name) else RequestedIsNull(name)
  }

  /** The lookup key of the crop area. */
  function CropKey(crop: Option<Area>): QKey {
    if crop.Some? then Requested("crop") else RequestedIsNull("crop")
  }

  /** The keys `get_query_kwargs` fills in. */
  function QueryKeys(h: LegacyHelper, crop: Option<Area>): set<QKey> {
    {Requested("adjustment"), StoragePath, SizeKey(h.kwargs, "width"), SizeKey(h.kwargs, "height"),
     SizeKey(h.kwargs, "max_width"), SizeKey(h.kwargs, "max_height"), CropKey(crop)}
  }

  /** The value `get_query_kwargs` gives one of its keys. */
  function QueryValue(h: LegacyHelper, crop: Option<Area>, k: QKey): KV
    requires k in QueryKeys(h, crop)
  {
    match k
    case StoragePath => KText(h.storagePath)
    case RequestedIsNull(_) => KTrue
    case Requested(n) =>
      if n == "adjustment" then h.adjustment
      else if n == "crop" then KArea(crop.value)
      else h.kwargs[n]
  }

  /** `q` looks `name` up as `kwargs` gives it: by value, or as null. */
  predicate LooksUp(q: map<QKey, KV>, kwargs: map<string, KV>, name: string) {
    && (Requested(name) in q <==> Given(kwargs, name))
    && (RequestedIsNull(name) in q <==> !Given(kwargs, name))
    && (Given(kwargs, name) ==> q[Requested(name)] == kwargs[name])
    && (!Given(kwargs, name) ==> q[RequestedIsNull(name)] == KTrue)
  }

  /**
   * `get_query_kwargs`: the adjustment and storage path, then for each size
   * and for the crop area exactly one of `requested_<k>` (its value) or
   * `requested_<k>__isnull` (True). `crop` is the crop area found for the
   * request, if any.
   */
  function QueryKwargs(h: LegacyHelper, crop: Option<Area>): (q: map<QKey, KV>)
    ensures Requested("adjustment") in q && q[Requested("adjustment")] == h.adjustment
    ensures StoragePath in q && q[StoragePath] == KText(h.storagePath)
    ensures forall n | n in SizeNames :: LooksUp(q, h.kwargs, n)
    ensures (Requested("crop") in q <==> crop.Some?) && (RequestedIsNull("crop") in q <==> crop.None?)
    ensures crop.Some? ==> q[Requested("crop")] == KArea(crop.value)
    ensures crop.None? ==> q[RequestedIsNull("crop")] == KTrue
    ensures forall k | k in q :: k == StoragePath || k.name in SizeNames || k.name in {"adjustment", "crop"}
  {
    SizesLookUp(h, crop);
    QueryEntries(h, crop)
  }

  /** The keyword map of `get_query_kwargs`, key by key. */
  function QueryEntries(h: LegacyHelper, crop: Option<Area>): map<QKey, KV> {
    map k | k in QueryKeys(h, crop) :: QueryValue(h, crop, k)
  }

  /** Each size is looked up by value or as null. */
  lemma SizesLookUp(h: LegacyHelper, crop: Option<Area>)
    ensures forall n | n in SizeNames :: LooksUp(QueryEntries(h, crop), h.kwargs, n)
  {
    forall n | n in SizeNames ensures LooksUp(QueryEntries(h, crop), h.kwargs, n) {
      assert n == "width" || n == "height" || n == "max_width" || n == "max_height";
      SizeLooksUp(h, crop, n);
    }
  }

  /** One size name is looked up by value or as null. */
  lemma SizeLooksUp(h: LegacyHelper, crop: Option<Area>, n: string)
    requires n == "width" || n == "height" || n == "max_width" || n == "max_height"
    ensures LooksUp(QueryEntries(h, crop), h.kwargs, n)
  {
    assert n != "adjustment" && n != "crop";
  }

  // ------------------------------------------------------------------ creation keywords

  /**
   * The keywords a new adjusted image is created with: every null key
   * becomes its plain key with value None, every other key is copied. When a
   * plain key and its null key are both present, None wins here.
   */
  function CreationKwargs(q: map<QKey, KV>): (c: map<QKey, KV>)
    ensures forall k | k in q && k.RequestedIsNull? :: Requested(k.name) in c && c[Requested(k.name)] == KNone
    ensures forall k | k in q && !k.RequestedIsNull? && (k.StoragePath? || RequestedIsNull(k.name) !in q) :: k in c && c[k] == q[k]
    ensures forall k | k in c :: !k.RequestedIsNull? && (k in q || (k.Requested? && RequestedIsNull(k.name) in q))
  {
    (map k | k in q && !k.RequestedIsNull? :: q[k])
      + (map k | k in q && k.RequestedIsNull? :: Requested(k.name) := KNone)
  }

  /** A name looked up by value or as null is created with its value or None. */
  lemma CreationOfLookup(q: map<QKey, KV>, kwargs: map<string, KV>, name: string)
    requires LooksUp(q, kwargs, name)
    ensures var c := CreationKwargs(q);
      Requested(name) in c && c[Requested(name)] == (if Given(kwargs, name) then kwargs[name] else KNone)
  {
    if Given(kwargs, name) {
      assert Requested(name) in q && RequestedIsNull(name) !in q;
    } else {
      assert RequestedIsNull(name) in q;
    }
  }

  /**
   * The adjusted image is created with each size as `kwargs.get(name)` (None
   * when absent): the lookup and creation steps agree on the sizes.
   */
  lemma CreationSizes(h: LegacyHelper, crop: Option<Area>)
    ensures var c := CreationKwargs(QueryKwargs(h, crop));
      forall n | n in SizeNames ::
        Requested(n) in c && c[Requested(n)] == (if Given(h.kwargs, n) then h.kwargs[n] else KNone)
  {
    var q := QueryKwargs(h, crop);
    forall n | n in SizeNames
      ensures LooksUp(q, h.kwargs, n)
    {
    }
    forall n | n in SizeNames
      ensures var c := CreationKwargs(q);
        Requested(n) in c && c[Requested(n)] == (if Given(h.kwargs, n) then h.kwargs[n] else KNone)
    {
      CreationOfLookup(q, h.kwargs, n);
    }
  }

  /**
   * The adjusted image is created with the crop area or None, the requested
   * adjustment and the storage path, and without null keys.
   */
  lemma CreationRest(h: LegacyHelper, crop: Option<Area>)
    ensures var c := CreationKwargs(QueryKwargs(h, crop));
      && Requested("crop") in c && c[Requested("crop")] == (if crop.Some? then KArea(crop.value) else KNone)
      && Requested("adjustment") in c && c[Requested("adjustment")] == h.adjustment
      && StoragePath in c && c[StoragePath] == KText(h.storagePath)
      && (forall k | k in c :: !k.RequestedIsNull?)
  {
    var q := QueryKwargs(h, crop);
    if crop.Some? {
      assert Requested("crop") in q && RequestedIsNull("crop") !in q;
    } else {
      assert RequestedIsNull("crop") in q;
    }
    assert RequestedIsNull("adjustment") !in q;
  }

  // ------------------------------------------------------------------ query dictionary

  /** `param_map`: each keyword's short query name. */
  const ParamMap: map<string, string> := map[
    "width" := "w", "height" := "h", "max_width" := "max_w", "max_height" := "max_h",
    "adjustment" := "a", "security" := "s", "crop" := "c"]

  /** `int_params`: the keywords read back with `int()`. */
  const IntParams: set<string> := {"width", "height", "max_width", "max_height"}

  /** No two keywords share a short name, so the query dictionary can be read back. */
  lemma ParamMapInjective()
    ensures forall a, b | a in ParamMap && b in ParamMap && ParamMap[a] == ParamMap[b] :: a == b
    ensures IntParams <= ParamMap.Keys
  {
  }

  /** The hash of a keyword dictionary (`make_security_hash`), left uninterpreted. */
  type SecurityHash = map<string, KV> -> string

  /**
   * Errors of the query dictionary: a keyword without a short name (a
   * KeyError), an `int()` that fails, and the two security failures.
   */
  datatype QueryError = UnknownKeyword | NotAnInteger | SecurityFailed | SecurityMissing

  /** The keywords `to_querydict` writes: the helper's, the adjustment, and the hash when `secure`. */
  function Outgoing(h: LegacyHelper, secure: bool, hash: SecurityHash): map<string, KV> {
    var kwargs := h.kwargs["adjustment" := h.adjustment];
    if secure then kwargs["security" := KText(hash(kwargs))] else kwargs
  }

  /** Every keyword under its short name. */
  function Rename(kwargs: map<string, KV>): (qd: map<string, KV>)
    requires kwargs.Keys <= ParamMap.Keys
    ensures forall k | k in kwargs :: ParamMap[k] in qd && qd[ParamMap[k]] == kwargs[k]
    ensures forall k | k in ParamMap && k !in kwargs :: ParamMap[k] !in qd
    ensures forall s | s in qd :: exists k :: k in kwargs && ParamMap[k] == s
  {
    ParamMapInjective();
    RenamedMap(kwargs);
    map k | k in kwargs :: ParamMap[k] := kwargs[k]
  }

  lemma RenamedMap(kwargs: map<string, KV>)
    requires kwargs.Keys <= ParamMap.Keys
    requires forall a, b | a in ParamMap && b in ParamMap && ParamMap[a] == ParamMap[b] :: a == b
    ensures var qd := map k | k in kwargs :: ParamMap[k] := kwargs[k];
      && (forall k | k in kwargs :: ParamMap[k] in qd && qd[ParamMap[k]] == kwargs[k])
      && (forall k | k in ParamMap && k !in kwargs :: ParamMap[k] !in qd)
      && (forall s | s in qd :: exists k :: k in kwargs && ParamMap[k] == s)
  {
    var qd := map k | k in kwargs :: ParamMap[k] := kwargs[k];
    assert qd.Keys == set k | k in kwargs :: ParamMap[k];
    RenamedEntries(kwargs, qd);
  }

  /** The renamed dictionary holds each keyword's value under its short name, and nothing else. */
  lemma RenamedEntries(kwargs: map<string, KV>, qd: map<string, KV>)
    requires kwargs.Keys <= ParamMap.Keys
    requires forall a, b | a in ParamMap && b in ParamMap && ParamMap[a] == ParamMap[b] :: a == b
    requires qd.Keys == set k | k in kwargs :: ParamMap[k]
    requires forall k | k in kwargs :: qd[ParamMap[k]] == kwargs[k]
    ensures forall k | k in kwargs :: ParamMap[k] in qd && qd[ParamMap[k]] == kwargs[k]
    ensures forall k | k in ParamMap && k !in kwargs :: ParamMap[k] !in qd
    ensures forall s | s in qd :: exists k :: k in kwargs && ParamMap[k] == s
  {
  }

  /**
   * `to_querydict`: every outgoing keyword under its short name; a keyword
   * without one is a KeyError. The hash goes under `s` when `secure`.
   */
  function ToQuerydict(h: LegacyHelper, secure: bool, hash: SecurityHash): (r: Result<map<string, KV>, QueryError>)
    ensures r.Err? <==> exists k :: k in Outgoing(h, secure, hash) && k !in ParamMap
    ensures r.Err? ==> r.error == UnknownKeyword
    ensures r.Ok? ==> forall k | k in Outgoing(h, secure, hash) :: ParamMap[k] in r.value && r.value[ParamMap[k]] == Outgoing(h, secure, hash)[k]
    ensures r.Ok? ==> forall s | s in r.value :: exists k :: k in Outgoing(h, secure, hash) && ParamMap[k] == s
    ensures r.Ok? ==> "a" in r.value && r.value["a"] == h.adjustment
    ensures r.Ok? && secure ==> "s" in r.value && r.value["s"] == KText(hash(h.kwargs["adjustment" := h.adjustment]))
    ensures r.Ok? && !secure ==> ("s" in r.value <==> "security" in h.kwargs)
  {
    var kwargs := Outgoing(h, secure, hash);
    if exists k :: k in kwargs && k !in ParamMap then
      Err(UnknownKeyword)
    else
      var qd := Rename(kwargs);
      assert ParamMap["adjustment"] == "a" && ParamMap["security"] == "s";
      Ok(qd)
  }

  /** The short name is present and its keyword is read with `int()`, which fails. */
  predicate BadInteger(qd: map<string, string>, verbose: string)
    requires verbose in ParamMap
  {
    verbose in IntParams && ParamMap[verbose] in qd && Text.ParseInt(qd[ParamMap[verbose]]).None?
  }

  /** A present short name's value read back under its keyword. */
  function ReadBack(qd: map<string, string>, verbose: string): KV
    requires verbose in ParamMap && ParamMap[verbose] in qd && !BadInteger(qd, verbose)
  {
    var text := qd[ParamMap[verbose]];
    if verbose in IntParams then KInt(Text.ParseInt(text).value) else KText(text)
  }

  /**
   * The keyword loop of `from_querydict`: every keyword whose short name is
   * present, the int params through `int()`, which raises on bad input.
   */
  function Incoming(qd: map<string, string>): (r: Result<map<string, KV>, QueryError>)
    ensures r.Err? <==> exists v :: v in ParamMap && BadInteger(qd, v)
    ensures r.Err? ==> r.error == NotAnInteger
    ensures r.Ok? ==> forall v | v in ParamMap :: v in r.value <==> ParamMap[v] in qd
    ensures r.Ok? ==> forall v | v in r.value :: v in ParamMap && ParamMap[v] in qd && r.value[v] == ReadBack(qd, v)
  {
    if exists v :: v in ParamMap && BadInteger(qd, v) then Err(NotAnInteger)
    else Ok(map v | v in ParamMap && ParamMap[v] in qd :: ReadBack(qd, v))
  }

  /** The security entry read back from a query dictionary is the text under 's'. */
  lemma SecurityReadBack(qd: map<string, string>)
    requires Incoming(qd).Ok?
    ensures "security" in Incoming(qd).value <==> "s" in qd
    ensures "s" in qd ==> Incoming(qd).value["security"] == KText(qd["s"])
  {
    assert "security" in ParamMap && ParamMap["security"] == "s" && "security" !in IntParams;
  }

  /**
   * `from_querydict`: read the keywords back; a hash that is present must
   * match the hash of the other keywords, and a missing hash is an error only
   * when `secure` is set. The helper is then built from the keywords.
   */
  function FromQuerydict(storagePath: string, qd: map<string, string>, secure: bool, hash: SecurityHash)
    : (r: Result<LegacyHelper, QueryError>)
    ensures Incoming(qd).Err? ==> r == Err(NotAnInteger)
    ensures Incoming(qd).Ok? && "s" in qd ==>
      (r == Err(SecurityFailed) <==> qd["s"] != hash(Incoming(qd).value - {"security"}))
    ensures Incoming(qd).Ok? && "s" !in qd ==> (r == Err(SecurityMissing) <==> secure)
    ensures r.Ok? ==> r.value == NewHelper(storagePath, Incoming(qd).value - {"security"})
    ensures r.Ok? ==> r.value.storagePath == storagePath && "security" !in r.value.kwargs
  {
    var kwargs :- Incoming(qd);
    SecurityReadBack(qd);
    if "security" in kwargs then
      var rest := kwargs - {"security"};
      if kwargs["security"] != KText(hash(rest)) then Err(SecurityFailed) else Ok(NewHelper(storagePath, rest))
    else if secure then Err(SecurityMissing)
    else
      assert kwargs == kwargs - {"security"};
      Ok(NewHelper(storagePath, kwargs))
  }

  // ------------------------------------------------------------------ round trip

  /** How a query value travels in a URL: integers in decimal, strings as they are. */
  function Render(v: KV): string {
    match v
    case KInt(n) => Text.IntToString(n)
    case KText(s) => s
    case KNone => "None"
    case KTrue => "True"
    case KArea(a) => a.name
  }

  /** The query dictionary as it comes back from a URL. */
  function Transport(qd: map<string, KV>): map<string, string> {
    map k | k in qd :: Render(qd[k])
  }

  /**
   * A helper whose keywords all have short names, with integers for the int
   * params and strings elsewhere, as one read back from a URL has.
   */
  predicate Transportable(h: LegacyHelper) {
    && h.adjustment.KText?
    && "adjustment" !in h.kwargs && "security" !in h.kwargs
    && (forall k | k in h.kwargs :: k in ParamMap)
    && (forall k | k in h.kwargs && k in IntParams :: h.kwargs[k].KInt?)
    && (forall k | k in h.kwargs && k !in IntParams :: h.kwargs[k].KText?)
  }

  /** Keywords that survive a URL: short names only, integers for the int params, strings elsewhere. */
  predicate WireKwargs(kw: map<string, KV>) {
    && kw.Keys <= ParamMap.Keys
    && (forall k | k in kw && k in IntParams :: kw[k].KInt?)
    && (forall k | k in kw && k !in IntParams :: kw[k].KText?)
  }

  /** What a keyword's short name carries after the trip through a URL. */
  lemma TransportRenamed(kw: map<string, KV>, v: string)
    requires WireKwargs(kw) && v in ParamMap
    ensures var t := Transport(Rename(kw));
      && (ParamMap[v] in t <==> v in kw)
      && (v in kw ==> t[ParamMap[v]] == Render(kw[v]))
  {
    ParamMapInjective();
  }

  /** A transported keyword reads back as itself. */
  lemma ReadBackOne(kw: map<string, KV>, v: string)
    requires WireKwargs(kw) && v in ParamMap
    ensures var t := Transport(Rename(kw));
      && !BadInteger(t, v)
      && (ParamMap[v] in t <==> v in kw)
      && (v in kw ==> ReadBack(t, v) == kw[v])
  {
    TransportRenamed(kw, v);
    if v in kw && v in IntParams {
      Text.IntRoundTrip(kw[v].n);
    }
  }

  /** `qd` carries exactly the keywords `kw`, each readable. */
  predicate Carries(qd: map<string, string>, kw: map<string, KV>) {
    && kw.Keys <= ParamMap.Keys
    && forall v | v in ParamMap ::
         && !BadInteger(qd, v)
         && (ParamMap[v] in qd <==> v in kw)
         && (v in kw ==> ReadBack(qd, v) == kw[v])
  }

  /** Every transported keyword reads back as itself. */
  lemma TransportCarries(kw: map<string, KV>)
    requires WireKwargs(kw)
    ensures Carries(Transport(Rename(kw)), kw)
  {
    forall v | v in ParamMap
      ensures var t := Transport(Rename(kw));
        !BadInteger(t, v) && (ParamMap[v] in t <==> v in kw) && (v in kw ==> ReadBack(t, v) == kw[v])
    {
      ReadBackOne(kw, v);
    }
  }

  /** A dictionary carrying `kw` reads back as `kw`. */
  lemma IncomingCarried(qd: map<string, string>, kw: map<string, KV>)
    requires Carries(qd, kw)
    ensures Incoming(qd) == Ok(kw)
  {
    var back := Incoming(qd);
    assert back.Ok?;
    assert back.value.Keys == kw.Keys;
    forall v | v in kw
      ensures back.value[v] == kw[v]
    {
      assert v in ParamMap;
    }
    assert back.value == kw;
  }

  /** Reading back the transported keywords gives them again. */
  lemma ReadBackRenamed(kw: map<string, KV>)
    requires WireKwargs(kw)
    ensures Incoming(Transport(Rename(kw))) == Ok(kw)
  {
    TransportCarries(kw);
    IncomingCarried(Transport(Rename(kw)), kw);
  }

  /** The outgoing keywords of a transportable helper survive a URL. */
  lemma OutgoingWire(h: LegacyHelper, secure: bool, hash: SecurityHash)
    requires Transportable(h)
    ensures WireKwargs(Outgoing(h, secure, hash))
    ensures ToQuerydict(h, secure, hash) == Ok(Rename(Outgoing(h, secure, hash)))
  {
  }

  /** `from_querydict` once its keywords are read back. */
  lemma FromKeywords(storagePath: string, qd: map<string, string>, secure: bool, hash: SecurityHash, kw: map<string, KV>)
    requires Incoming(qd) == Ok(kw)
    ensures "security" !in kw ==>
      FromQuerydict(storagePath, qd, secure, hash) == if secure then Err(SecurityMissing) else Ok(NewHelper(storagePath, kw))
    ensures "security" in kw && kw["security"] == KText(hash(kw - {"security"})) ==>
      FromQuerydict(storagePath, qd, secure, hash) == Ok(NewHelper(storagePath, kw - {"security"}))
  {
  }

  /** The keywords a transportable helper sends, without the hash, are its own plus the adjustment. */
  lemma OutgoingPlain(h: LegacyHelper, secure: bool, hash: SecurityHash)
    requires Transportable(h)
    ensures var kw := Outgoing(h, secure, hash);
      && ("security" in kw <==> secure)
      && kw - {"security"} == h.kwargs["adjustment" := h.adjustment]
      && (secure ==> kw["security"] == KText(hash(kw - {"security"})))
      && NewHelper(h.storagePath, kw - {"security"}) == h
  {
    var plain := h.kwargs["adjustment" := h.adjustment];
    assert plain - {"security"} == plain;
    assert plain - {"adjustment"} == h.kwargs;
  }

  /**
   * `from_querydict` undoes `to_querydict`: the helper comes back unchanged,
   * unless the dictionary was written without a hash and one is demanded.
   */
  lemma QuerydictRoundTrip(h: LegacyHelper, secure: bool, demand: bool, hash: SecurityHash)
    requires Transportable(h)
    ensures ToQuerydict(h, secure, hash).Ok?
    ensures FromQuerydict(h.storagePath, Transport(ToQuerydict(h, secure, hash).value), demand, hash)
            == if secure || !demand then Ok(h) else Err(SecurityMissing)
  {
    OutgoingWire(h, secure, hash);
    var kw := Outgoing(h, secure, hash);
    ReadBackRenamed(kw);
    OutgoingPlain(h, secure, hash);
    FromKeywords(h.storagePath, Transport(Rename(kw)), demand, hash, kw);
    if !secure {
      assert kw - {"security"} == kw;
    }
  }
}
