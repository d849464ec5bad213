/** Knobs: the catalog's validators, the decoders, and what the effective value
    of a knob at a scope is. A stored value is its JSON document, already parsed;
    numbers are the float64 the parser yields. */
module SettingsModel {
  import opened Common

  datatype Json = JNull | JBool(b: bool) | JNum(n: real) | JStr(s: string) | JArr(items: seq<Json>) | JObj | Malformed

  datatype KnobType = KnobInt | KnobFloat | KnobString | KnobEnum | KnobMultiselect | Unsupported

  datatype Value = VInt(i: int) | VFloat(x: real) | VStr(s: string) | VStrs(ss: seq<string>)

  datatype Knob = Knob(key: string, kind: KnobType, sliderMin: Option<real>, sliderMax: Option<real>,
                       enumValues: seq<string>, default: Value)

  datatype SettingsError = UnknownKey | TypeMismatch | EnumOutOfRange | LookupFailed | DecodeFailed

  datatype Warning = AboveMax | BelowMin

  datatype ScopeType = System | Product | Manifest | Task

  datatype Scope = Scope(productId: string, manifestId: string, taskId: string)

  datatype Resolved = Resolved(key: string, value: Value, source: ScopeType, sourceId: string)

  /** The settings table under PRIMARY KEY (scope_type, scope_id, key). */
  datatype Place = Place(scope: ScopeType, id: string, key: string)
  type Table = map<Place, Json>

  /** An adapter answers None for an error; an absent adapter is a nil lookup. */
  type Lookup = string -> Option<string>

  datatype Env = Env(catalog: seq<Knob>, store: Table, tasks: Option<Lookup>, manifests: Option<Lookup>)

  predicate DistinctKeys(catalog: seq<Knob>) {
    forall i, j :: 0 <= i < j < |catalog| ==> catalog[i].key != catalog[j].key
  }

  /** The linear scan of KnobByKey. */
  function KnobByKey(catalog: seq<Knob>, key: string): Option<Knob> {
    if catalog == [] then None
    else if catalog[0].key == key then Some(catalog[0])
    else KnobByKey(catalog[1..], key)
  }

  lemma {:induction false} KnobByKeyFinds(catalog: seq<Knob>, knob: Knob)
    requires DistinctKeys(catalog) && knob in catalog
    ensures KnobByKey(catalog, knob.key) == Some(knob)
  {
    if catalog[0] != knob {
      assert forall i :: 0 <= i < |catalog[1..]| ==> catalog[1..][i] == catalog[i + 1];
      KnobByKeyFinds(catalog[1..], knob);
    }
  }

  // ---- Numbers ------------------------------------------------------------

  const TWO63: int := 0x8000_0000_0000_0000

  /** Go's conversion to int64 on amd64: truncation toward zero, and the lowest
      value for anything out of range. */
  function ToInt64(n: real): (t: int)
    ensures 0.0 <= n < 9223372036854775808.0 ==> t as real <= n < (t + 1) as real
    ensures -9223372036854775809.0 < n < 0.0 ==> (t - 1) as real < n <= t as real
    ensures n >= 9223372036854775808.0 || n <= -9223372036854775809.0 ==> t == -9223372036854775808
  {
    var t := if n >= 0.0 then n.Floor else -((-n).Floor);
    if -TWO63 <= t < TWO63 then t else -TWO63
  }

  // ---- Validate -----------------------------------------------------------

  function SliderWarnings(knob: Knob, n: real): seq<Warning> {
    (if knob.sliderMax.Some? && n > knob.sliderMax.value then [AboveMax] else []) +
    (if knob.sliderMin.Some? && n < knob.sliderMin.value then [BelowMin] else [])
  }

  function ValidateKnob(knob: Knob, json: Json): Result<seq<Warning>, SettingsError> {
    if json.Malformed? then Err(TypeMismatch) else
    match knob.kind
    case KnobInt =>
      if !json.JNum? || json.n != ToInt64(json.n) as real then Err(TypeMismatch) else Ok(SliderWarnings(knob, json.n))
    case KnobFloat => if json.JNum? then Ok(SliderWarnings(knob, json.n)) else Err(TypeMismatch)
    case KnobString => if json.JStr? then Ok([]) else Err(TypeMismatch)
    case KnobEnum =>
      if !json.JStr? then Err(TypeMismatch) else if json.s in knob.enumValues then Ok([]) else Err(EnumOutOfRange)
    case KnobMultiselect =>
      if json.JArr? && forall i :: 0 <= i < |json.items| ==> json.items[i].JStr? then Ok([]) else Err(TypeMismatch)
    case Unsupported => Err(TypeMismatch)
  }

  function ValidateValue(catalog: seq<Knob>, key: string, json: Json): Result<seq<Warning>, SettingsError> {
    match KnobByKey(catalog, key)
    case None => Err(UnknownKey)
    case Some(knob) => ValidateKnob(knob, json)
  }

  /** The number is whole and fits an int64. */
  ghost predicate IsInt64(n: real) {
    n == n.Floor as real && -9223372036854775808 <= n.Floor < 9223372036854775808
  }

  /** What the validator accepts, kind by kind, and which of its errors it returns. */
  lemma ValidInFields(knob: Knob, json: Json)
    ensures ValidateKnob(knob, json).Ok? <==>
              || (knob.kind == KnobInt && json.JNum? && IsInt64(json.n))
              || (knob.kind == KnobFloat && json.JNum?)
              || (knob.kind == KnobString && json.JStr?)
              || (knob.kind == KnobEnum && json.JStr? && json.s in knob.enumValues)
              || (knob.kind == KnobMultiselect && json.JArr? && forall item :: item in json.items ==> item.JStr?)
    ensures ValidateKnob(knob, json).Err? ==>
              ValidateKnob(knob, json).error
              == if knob.kind == KnobEnum && json.JStr? then EnumOutOfRange else TypeMismatch
  {
    if json.JNum? {
      var t := ToInt64(json.n);
      assert json.n == t as real ==> json.n.Floor == t;
      if IsInt64(json.n) {
        assert t == json.n.Floor;
      }
    }
    if json.JArr? {
      assert forall i :: 0 <= i < |json.items| ==> json.items[i] in json.items;
    }
  }

  /** An unknown key is one no knob of the catalog has. */
  lemma UnknownKeyInFields(catalog: seq<Knob>, key: string, json: Json)
    ensures ValidateValue(catalog, key, json) == Err(UnknownKey) <==> forall knob :: knob in catalog ==> knob.key != key
  {
    KnobByKeyMisses(catalog, key);
  }

  lemma {:induction false} KnobByKeyMisses(catalog: seq<Knob>, key: string)
    ensures KnobByKey(catalog, key).None? <==> forall knob :: knob in catalog ==> knob.key != key
  {
    if catalog != [] {
      KnobByKeyMisses(catalog[1..], key);
      assert forall knob :: knob in catalog <==> knob == catalog[0] || knob in catalog[1..];
    }
  }

  /** A value past a slider is accepted with a warning; only numbers have sliders. */
  lemma WarningsInFields(knob: Knob, json: Json)
    requires ValidateKnob(knob, json).Ok?
    ensures var warnings := ValidateKnob(knob, json).value;
            && (AboveMax in warnings <==> json.JNum? && knob.sliderMax.Some? && knob.sliderMax.value < json.n)
            && (BelowMin in warnings <==> json.JNum? && knob.sliderMin.Some? && json.n < knob.sliderMin.value)
            && |warnings| <= 2 && (|warnings| == 2 ==> warnings == [AboveMax, BelowMin])
  {
  }

  // ---- Decode -------------------------------------------------------------

  function Strings(items: seq<Json>): (ss: Option<seq<string>>)
    ensures ss.Some? <==> forall i :: 0 <= i < |items| ==> items[i].JStr?
    ensures ss.Some? ==> |ss.value| == |items| && forall i :: 0 <= i < |items| ==> items[i] == JStr(ss.value[i])
  {
    if items == [] then Some([])
    else if !items[0].JStr? then None
    else
      var rest := Strings(items[1..]);
      assert forall i :: 0 < i < |items| ==> items[i] == items[1..][i - 1];
      if rest.None? then assert !(forall i :: 0 <= i < |items[1..]| ==> items[1..][i].JStr?); None
      else Some([items[0].s] + rest.value)
  }

  /** Decoding a null leaves Go's zero value in place. */
  function Decode(knob: Knob, json: Json): Result<Value, SettingsError> {
    match knob.kind
    case KnobInt =>
      if json.JNum? then Ok(VInt(ToInt64(json.n))) else if json.JNull? then Ok(VInt(0)) else Err(DecodeFailed)
    case KnobFloat =>
      if json.JNum? then Ok(VFloat(json.n)) else if json.JNull? then Ok(VFloat(0.0)) else Err(DecodeFailed)
    case KnobString => if json.JStr? then Ok(VStr(json.s)) else if json.JNull? then Ok(VStr("")) else Err(DecodeFailed)
    case KnobEnum => if json.JStr? then Ok(VStr(json.s)) else if json.JNull? then Ok(VStr("")) else Err(DecodeFailed)
    case KnobMultiselect =>
      if json.JNull? then Ok(VStrs([]))
      else if json.JArr? && Strings(json.items).Some? then Ok(VStrs(Strings(json.items).value))
      else Err(DecodeFailed)
    case Unsupported => Err(DecodeFailed)
  }

  /** The typed value says what the document says, whole numbers as integers. */
  predicate Denotes(knob: Knob, v: Value, json: Json) {
    match v
    case VInt(i) => knob.kind == KnobInt && json == JNum(i as real)
    case VFloat(x) => knob.kind == KnobFloat && json == JNum(x)
    case VStr(s) => (knob.kind == KnobString || (knob.kind == KnobEnum && s in knob.enumValues)) && json == JStr(s)
    case VStrs(ss) =>
      && knob.kind == KnobMultiselect && json.JArr? && |json.items| == |ss|
      && forall i :: 0 <= i < |ss| ==> json.items[i] == JStr(ss[i])
  }

  /** The validator accepts exactly the documents that decode to the value they
      denote; a null decodes too, but only past the validator. */
  lemma ValidIffDecodesFaithfully(knob: Knob, json: Json)
    ensures ValidateKnob(knob, json).Ok?
            <==> Decode(knob, json).Ok? && Denotes(knob, Decode(knob, json).value, json)
  {
  }

  /** What decodes is what has the right shape, and null, which leaves a zero value. */
  lemma DecodesInFields(knob: Knob, json: Json)
    ensures Decode(knob, json).Ok? <==>
              || (json.JNull? && knob.kind != Unsupported)
              || ((knob.kind == KnobInt || knob.kind == KnobFloat) && json.JNum?)
              || ((knob.kind == KnobString || knob.kind == KnobEnum) && json.JStr?)
              || (knob.kind == KnobMultiselect && json.JArr? && forall item :: item in json.items ==> item.JStr?)
    ensures json.JNull? && Decode(knob, json).Ok? ==>
              Decode(knob, json).value in {VInt(0), VFloat(0.0), VStr(""), VStrs([])}
    ensures knob.kind == KnobInt && json.JNum? ==> Decode(knob, json).value == VInt(ToInt64(json.n))
    ensures knob.kind == KnobEnum && json.JStr? ==> Decode(knob, json).value == VStr(json.s)
    ensures Decode(knob, json).Err? ==> Decode(knob, json).error == DecodeFailed
  {
    if json.JArr? {
      assert forall i :: 0 <= i < |json.items| ==> json.items[i] in json.items;
    }
  }

  // ---- Resolve ------------------------------------------------------------

  function Normalize(env: Env, scope: Scope): Result<Scope, SettingsError> {
    if scope.taskId != "" && scope.manifestId == "" then
      if env.tasks.None? || env.tasks.value(scope.taskId).None? then Err(LookupFailed)
      else NormalizeProduct(env, scope.(manifestId := env.tasks.value(scope.taskId).value))
    else NormalizeProduct(env, scope)
  }

  function NormalizeProduct(env: Env, scope: Scope): Result<Scope, SettingsError> {
    if scope.manifestId != "" && scope.productId == "" then
      if env.manifests.None? || env.manifests.value(scope.manifestId).None? then Err(LookupFailed)
      else Ok(scope.(productId := env.manifests.value(scope.manifestId).value))
    else Ok(scope)
  }

  predicate Stored(env: Env, tier: ScopeType, id: string, knob: Knob) {
    id != "" && Place(tier, id, knob.key) in env.store
  }

  function Hit(env: Env, tier: ScopeType, id: string, knob: Knob): Result<Resolved, SettingsError>
    requires Stored(env, tier, id, knob)
  {
    match Decode(knob, env.store[Place(tier, id, knob.key)])
    case Err(e) => Err(e)
    case Ok(v) => Ok(Resolved(knob.key, v, tier, id))
  }

  /** The effective value over a full scope: the innermost tier that stores the
      knob, or the catalog's default. */
  function Effective(env: Env, scope: Scope, knob: Knob): Result<Resolved, SettingsError> {
    if Stored(env, Task, scope.taskId, knob) then Hit(env, Task, scope.taskId, knob)
    else if Stored(env, Manifest, scope.manifestId, knob) then Hit(env, Manifest, scope.manifestId, knob)
    else if Stored(env, Product, scope.productId, knob) then Hit(env, Product, scope.productId, knob)
    else Ok(Resolved(knob.key, knob.default, System, ""))
  }

  /** Task goes before manifest, manifest before product, product before the catalog's
      default; the answer names the tier and id it is from. */
  lemma EffectiveIsInnermost(env: Env, scope: Scope, knob: Knob)
    ensures var r := Effective(env, scope, knob);
            var t := scope.taskId != "" && Place(Task, scope.taskId, knob.key) in env.store;
            var m := scope.manifestId != "" && Place(Manifest, scope.manifestId, knob.key) in env.store;
            var p := scope.productId != "" && Place(Product, scope.productId, knob.key) in env.store;
            && (r.Ok? ==>
                  && r.value.key == knob.key
                  && (r.value.source == Task <==> t) && (r.value.source == Manifest <==> !t && m)
                  && (r.value.source == Product <==> !t && !m && p)
                  && (r.value.source == System ==> r.value.value == knob.default)
                  && r.value.sourceId == (match r.value.source
                                          case Task => scope.taskId
                                          case Manifest => scope.manifestId
                                          case Product => scope.productId
                                          case System => "")
                  && (r.value.source != System ==>
                        Decode(knob, env.store[Place(r.value.source, r.value.sourceId, knob.key)])
                        == Ok(r.value.value)))
            && (!t && !m && !p ==> r.Ok?)
  {
  }

  /** Resolve promotes the scope only as far as it needs to: a lookup is made
      after the tiers inside it have missed, and a nil lookup is passed over. */
  function ResolveKnob(env: Env, scope: Scope, knob: Knob): Result<Resolved, SettingsError> {
    if Stored(env, Task, scope.taskId, knob) then Hit(env, Task, scope.taskId, knob)
    else if scope.manifestId == "" && scope.taskId != "" && env.tasks.Some? then
      match env.tasks.value(scope.taskId)
      case None => Err(LookupFailed)
      case Some(m) => ResolveFromManifest(env, scope.(manifestId := m), knob)
    else ResolveFromManifest(env, scope, knob)
  }

  function ResolveFromManifest(env: Env, scope: Scope, knob: Knob): Result<Resolved, SettingsError> {
    if Stored(env, Manifest, scope.manifestId, knob) then Hit(env, Manifest, scope.manifestId, knob)
    else if scope.productId == "" && scope.manifestId != "" && env.manifests.Some? then
      match env.manifests.value(scope.manifestId)
      case None => Err(LookupFailed)
      case Some(p) => ResolveFromProduct(env, p, knob)
    else ResolveFromProduct(env, scope.productId, knob)
  }

  function ResolveFromProduct(env: Env, productId: string, knob: Knob): Result<Resolved, SettingsError> {
    if Stored(env, Product, productId, knob) then Hit(env, Product, productId, knob)
    else Ok(Resolved(knob.key, knob.default, System, ""))
  }

  function Resolve(env: Env, scope: Scope, key: string): Result<Resolved, SettingsError> {
    match KnobByKey(env.catalog, key)
    case None => Err(UnknownKey)
    case Some(knob) => ResolveKnob(env, scope, knob)
  }

  /** Where the whole scope can be promoted, promoting it lazily per knob gives
      the effective value over the promoted scope. */
  lemma LazyIsEager(env: Env, scope: Scope, knob: Knob)
    requires Normalize(env, scope).Ok?
    ensures ResolveKnob(env, scope, knob) == Effective(env, Normalize(env, scope).value, knob)
  {
  }

  /** Where it cannot, the lazy walk still answers from the tiers it reaches
      before the failing lookup, and otherwise fails with it or, for a nil
      lookup, goes on without that tier. */
  lemma LazyWithoutPromotion(env: Env, scope: Scope, knob: Knob)
    requires Normalize(env, scope).Err? && env.tasks.Some? && env.manifests.Some?
    ensures ResolveKnob(env, scope, knob).Ok? ==> ResolveKnob(env, scope, knob).value.source in {Task, Manifest}
  {
  }

  /** Without adapters nothing is promoted: the scope as given is resolved. */
  lemma NilLookupsPromoteNothing(env: Env, scope: Scope, knob: Knob)
    requires env.tasks.None? && env.manifests.None?
    ensures ResolveKnob(env, scope, knob) == Effective(env, scope, knob)
  {
  }

  // ---- Set, then resolve --------------------------------------------------

  function SetValue(env: Env, tier: ScopeType, id: string, key: string, json: Json): Env {
    env.(store := env.store[Place(tier, id, key) := json])
  }

  /** The scope that names just this tier. */
  function ScopeAt(tier: ScopeType, id: string): Scope {
    match tier
    case Task => Scope("", "", id)
    case Manifest => Scope("", id, "")
    case Product => Scope(id, "", "")
    case System => Scope("", "", "")
  }

  /** A validated value, set at a scope with an id and resolved there, comes back as
      the value validated, with that scope as its source. Rows of the system tier or
      without an id are never read: the catalog's default comes back. */
  lemma SetThenResolve(env: Env, tier: ScopeType, id: string, key: string, json: Json)
    requires ValidateValue(env.catalog, key, json).Ok?
    ensures var knob := KnobByKey(env.catalog, key).value;
            var r := Resolve(SetValue(env, tier, id, key, json), ScopeAt(tier, id), key);
            && r.Ok?
            && (tier != System && id != "" ==>
                  r.value == Resolved(knob.key, r.value.value, tier, id) && Denotes(knob, r.value.value, json))
            && (tier == System || id == "" ==> r.value == Resolved(knob.key, knob.default, System, ""))
  {
    KeyOfKnob(env.catalog, key);
    ValidIffDecodesFaithfully(KnobByKey(env.catalog, key).value, json);
  }

  lemma {:induction false} KeyOfKnob(catalog: seq<Knob>, key: string)
    ensures KnobByKey(catalog, key).Some? ==> KnobByKey(catalog, key).value.key == key
  {
    if catalog != [] {
      KeyOfKnob(catalog[1..], key);
    }
  }
}
