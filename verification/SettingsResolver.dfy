/** The resolver's two forms: one knob at a time, and the whole catalog from one
    snapshot per tier. */
module SettingsResolver {
  import opened Common
  import opened SettingsModel

  datatype Entry = Entry(key: string, json: Json)

  class Resolver {
    const env: Env

    constructor (env: Env)
      ensures this.env == env
    {
      this.env := env;
    }

    method NormalizeScope(scope: Scope) returns (r: Result<Scope, SettingsError>)
      ensures r == Normalize(env, scope)
      ensures r.Ok? ==> r.value.taskId == scope.taskId
      ensures r.Ok? && scope.manifestId != "" ==> r.value.manifestId == scope.manifestId
      ensures r.Ok? && scope.productId != "" ==> r.value.productId == scope.productId
      ensures r.Ok? && scope.taskId != "" && scope.manifestId == "" ==>
                env.tasks.Some? && env.tasks.value(scope.taskId) == Some(r.value.manifestId)
      ensures r.Ok? && r.value.manifestId != "" && scope.productId == "" ==>
                env.manifests.Some? && env.manifests.value(r.value.manifestId) == Some(r.value.productId)
      ensures r.Ok? && r.value.manifestId == "" ==> r.value.productId == scope.productId
    {
      var s := scope;
      if s.taskId != "" && s.manifestId == "" {
        if env.tasks.None? {
          return Err(LookupFailed);
        }
        var m := env.tasks.value(s.taskId);
        if m.None? {
          return Err(LookupFailed);
        }
        s := s.(manifestId := m.value);
      }
      if s.manifestId != "" && s.productId == "" {
        if env.manifests.None? {
          return Err(LookupFailed);
        }
        var p := env.manifests.value(s.manifestId);
        if p.None? {
          return Err(LookupFailed);
        }
        s := s.(productId := p.value);
      }
      return Ok(s);
    }

    /** The explicit entry at one tier, decoded; None falls through. */
    method TryScope(tier: ScopeType, id: string, knob: Knob) returns (r: Option<Result<Resolved, SettingsError>>)
      requires id != ""
      ensures r == if Stored(env, tier, id, knob) then Some(Hit(env, tier, id, knob)) else None
      ensures r.None? <==> Place(tier, id, knob.key) !in env.store
      ensures r.Some? && r.value.Ok? ==>
                && r.value.value.key == knob.key && r.value.value.source == tier && r.value.value.sourceId == id
                && (ValidateKnob(knob, env.store[Place(tier, id, knob.key)]).Ok? ==>
                      Denotes(knob, r.value.value.value, env.store[Place(tier, id, knob.key)]))
    {
      var place := Place(tier, id, knob.key);
      if place !in env.store {
        return None;
      }
      var value := Decode(knob, env.store[place]);
      ValidIffDecodesFaithfully(knob, env.store[place]);
      if value.Err? {
        return Some(Err(value.error));
      }
      return Some(Ok(Resolved(knob.key, value.value, tier, id)));
    }

    /** One knob, promoting the scope as the walk goes up. */
    method ResolveOne(scope: Scope, key: string) returns (r: Result<Resolved, SettingsError>)
      ensures r == Resolve(env, scope, key)
      ensures r == Err(UnknownKey) <==> forall knob :: knob in env.catalog ==> knob.key != key
    {
      KnobByKeyMisses(env.catalog, key);
      var found := KnobByKey(env.catalog, key);
      if found.None? {
        return Err(UnknownKey);
      }
      var knob, s := found.value, scope;
      if s.taskId != "" {
        var hit := TryScope(Task, s.taskId, knob);
        if hit.Some? {
          return hit.value;
        }
      }
      if s.manifestId == "" && s.taskId != "" && env.tasks.Some? {
        var m := env.tasks.value(s.taskId);
        if m.None? {
          return Err(LookupFailed);
        }
        s := s.(manifestId := m.value);
      }
      if s.manifestId != "" {
        var hit := TryScope(Manifest, s.manifestId, knob);
        if hit.Some? {
          return hit.value;
        }
      }
      if s.productId == "" && s.manifestId != "" && env.manifests.Some? {
        var p := env.manifests.value(s.manifestId);
        if p.None? {
          return Err(LookupFailed);
        }
        s := s.(productId := p.value);
      }
      if s.productId != "" {
        var hit := TryScope(Product, s.productId, knob);
        if hit.Some? {
          return hit.value;
        }
      }
      return Ok(Resolved(knob.key, knob.default, System, ""));
    }

    /** SELECT ... WHERE scope_type AND scope_id: the rows of one scope. */
    method ListScope(tier: ScopeType, id: string) returns (entries: seq<Entry>)
      ensures forall key, json :: Entry(key, json) in entries <==>
                Place(tier, id, key) in env.store && env.store[Place(tier, id, key)] == json
    {
      entries := [];
      var todo := set place | place in env.store && place.scope == tier && place.id == id :: place.key;
      ghost var all := todo;
      while todo != {}
        invariant todo <= all
        invariant forall key, json :: Entry(key, json) in entries <==>
                    key in all - todo && Place(tier, id, key) in env.store && env.store[Place(tier, id, key)] == json
        decreases todo
      {
        var key :| key in todo;
        entries := entries + [Entry(key, env.store[Place(tier, id, key)])];
        todo := todo - {key};
      }
    }

    /** The rows of one scope, keyed by knob; an absent scope is an empty map. */
    method SnapshotScope(tier: ScopeType, id: string) returns (m: map<string, Json>)
      ensures forall key :: key in m <==> id != "" && Place(tier, id, key) in env.store
      ensures forall key :: key in m ==> m[key] == env.store[Place(tier, id, key)]
    {
      m := map[];
      if id == "" {
        return;
      }
      var entries := ListScope(tier, id);
      for i := 0 to |entries|
        invariant forall key :: key in m <==> exists k :: 0 <= k < i && entries[k].key == key
        invariant forall key :: key in m ==> Entry(key, m[key]) in entries
      {
        assert entries[i] == Entry(entries[i].key, entries[i].json) && entries[i] in entries;
        m := m[entries[i].key := entries[i].json];
      }
      forall key
        ensures key in m <==> Place(tier, id, key) in env.store
      {
        if Place(tier, id, key) in env.store {
          var e := Entry(key, env.store[Place(tier, id, key)]);
          assert e in entries;
          var k :| 0 <= k < |entries| && entries[k] == e;
          assert entries[k].key == key;
        }
      }
    }

    /** Walks the snapshots in inheritance order. */
    method PickFromMaps(knob: Knob, scope: Scope, taskMap: map<string, Json>, manifestMap: map<string, Json>,
                        productMap: map<string, Json>) returns (r: Result<Resolved, SettingsError>)
      requires knob in env.catalog && DistinctKeys(env.catalog)
      requires forall key :: key in taskMap <==> scope.taskId != "" && Place(Task, scope.taskId, key) in env.store
      requires forall key :: key in taskMap ==> taskMap[key] == env.store[Place(Task, scope.taskId, key)]
      requires forall key :: key in manifestMap <==>
                 scope.manifestId != "" && Place(Manifest, scope.manifestId, key) in env.store
      requires forall key :: key in manifestMap ==>
                 manifestMap[key] == env.store[Place(Manifest, scope.manifestId, key)]
      requires forall key :: key in productMap <==>
                 scope.productId != "" && Place(Product, scope.productId, key) in env.store
      requires forall key :: key in productMap ==> productMap[key] == env.store[Place(Product, scope.productId, key)]
      ensures r == Effective(env, scope, knob)
    {
      var tiers := [(Task, scope.taskId, taskMap), (Manifest, scope.manifestId, manifestMap),
                    (Product, scope.productId, productMap)];
      for i := 0 to |tiers|
        invariant i > 0 ==> !Stored(env, Task, scope.taskId, knob)
        invariant i > 1 ==> !Stored(env, Manifest, scope.manifestId, knob)
        invariant i > 2 ==> !Stored(env, Product, scope.productId, knob)
      {
        var (tier, id, entries) := tiers[i];
        if id == "" || knob.key !in entries {
          continue;
        }
        var value := Decode(knob, entries[knob.key]);
        if value.Err? {
          return Err(value.error);
        }
        return Ok(Resolved(knob.key, value.value, tier, id));
      }
      KnobByKeyFinds(env.catalog, knob);
      var found := KnobByKey(env.catalog, knob.key);
      return Ok(Resolved(knob.key, found.value.default, System, ""));
    }

    /** Every knob at once: it succeeds exactly when the scope can be promoted and
        every knob resolves on its own, and then each entry is what resolving that
        knob alone returns, value, tier and id. */
    method ResolveAll(scope: Scope) returns (r: Result<map<string, Resolved>, SettingsError>)
      requires DistinctKeys(env.catalog)
      ensures r.Ok? <==> Normalize(env, scope).Ok? && forall k :: k in env.catalog ==> Resolve(env, scope, k.key).Ok?
      ensures r.Ok? ==> forall key :: key in r.value <==> exists k :: k in env.catalog && k.key == key
      ensures r.Ok? ==> forall k :: k in env.catalog ==>
                k.key in r.value && Resolve(env, scope, k.key) == Ok(r.value[k.key])
    {
      var normalized := NormalizeScope(scope);
      if normalized.Err? {
        return Err(normalized.error);
      }
      var s := normalized.value;
      var taskMap := SnapshotScope(Task, s.taskId);
      var manifestMap := SnapshotScope(Manifest, s.manifestId);
      var productMap := SnapshotScope(Product, s.productId);
      var out: map<string, Resolved> := map[];
      for i := 0 to |env.catalog|
        invariant forall key :: key in out <==> exists j :: 0 <= j < i && env.catalog[j].key == key
        invariant forall j :: 0 <= j < i ==>
                    env.catalog[j].key in out && Resolve(env, scope, env.catalog[j].key) == Ok(out[env.catalog[j].key])
      {
        var knob := env.catalog[i];
        KnobByKeyFinds(env.catalog, knob);
        LazyIsEager(env, scope, knob);
        var resolved := PickFromMaps(knob, s, taskMap, manifestMap, productMap);
        if resolved.Err? {
          assert knob in env.catalog;
          return Err(resolved.error);
        }
        out := out[knob.key := resolved.value];
      }
      return Ok(out);
    }
  }
}
