/**
 * The process-wide state of the on-demand endpoint service and every
 * operation that reads or changes it: the endpoint pool (`EndpointPool`),
 * the module-level `delete_endpoint`, the usage log with its adaptive
 * timeout, the fire-time check of the idle reclaim timer, the bulk cleanup,
 * endpoint creation, the readiness ping and the quota check.
 *
 * Calls into Vertex AI are not modelled; their outcomes (teardown ok or
 * raised, lookup result, deploy error text, endpoint listing) are inputs.
 * Times are whole seconds passed in as `now`.
 */
module Endpoints {
  import opened Wrappers
  import opened Text
  import opened PoolTable
  import opened Usage

  type ModelType = string

  datatype ModelInfo = ModelInfo(modelId: string, endpointId: EndpointId, endpointName: string)

  /** MODELS: the three vein types the service knows. */
  const Models: map<ModelType, ModelInfo> := map[
    "renal" := ModelInfo("8902680778916233216", "1148704877514326016", "VExUS - Renal Vein"),
    "portal" := ModelInfo("6378976137728491520", "2970410926785691648", "VExUS - Portal Vein"),
    "hepatic" := ModelInfo("6041241350047793152", "8159951878260523008", "VExUS - Hepatic Vein")
  ]

  /** PROJECT_ID and LOCATION at their defaults. */
  const ProjectId: string := "plucky-weaver-450819-k7"
  const Location: string := "us-central1"

  /** The handle `aiplatform.Endpoint(endpoint_name=...)` gives for an id. */
  function EndpointHandle(id: EndpointId): Handle
  {
    Handle("projects/" + ProjectId + "/locations/" + Location + "/endpoints/" + id)
  }

  /** The pool's tables are dicts (distinct ids), and `order` lists each
      model type of the pool once, in the order the keys were inserted. */
  ghost predicate TablesValid(m: map<ModelType, Table>, order: seq<ModelType>)
  {
    && (forall mt :: mt in m ==> DistinctIds(m[mt]))
    && (forall i, j :: 0 <= i < j < |order| ==> order[i] != order[j])
    && (forall mt :: mt in m <==> mt in order)
  }

  lemma TablesValidUpdate(m: map<ModelType, Table>, order: seq<ModelType>, mt: ModelType, t: Table)
    requires TablesValid(m, order) && mt in m && DistinctIds(t)
    ensures TablesValid(m[mt := t], order)
  {
  }

  lemma TablesValidInsert(m: map<ModelType, Table>, order: seq<ModelType>, mt: ModelType, t: Table)
    requires TablesValid(m, order) && mt !in m && DistinctIds(t)
    ensures TablesValid(m[mt := t], order + [mt])
  {
    var o := order + [mt];
    forall i, j | 0 <= i < j < |o| ensures o[i] != o[j] {
      if j == |order| {
        assert o[i] == order[i] && order[i] in order;
      }
    }
  }

  /** `usage_history[model_type]` of the defaultdict. */
  function UsageOf(h: map<ModelType, seq<int>>, mt: ModelType): seq<int>
  {
    if mt in h then h[mt] else []
  }

  lemma UpdateTwice<K, V>(m: map<K, V>, k: K, a: V, b: V)
    ensures m[k := a][k := b] == m[k := b]
  {
  }

  /** The number of free slots over the given model types, as cleanup_all
      counts them. */
  function TotalFree(m: map<ModelType, Table>, types: seq<ModelType>): nat
  {
    if types == [] then 0
    else
      TotalFree(m, types[..|types| - 1])
        + (var mt := types[|types| - 1]; if mt in m then CountFree(m[mt]) else 0)
  }

  /** The fire-time check of `schedule_cleanup`: the entry is still tracked
      and at least `timeoutSeconds` have passed since its `created_at` (its
      latest release). It does not look at `in_use`. */
  predicate ShouldReclaim(m: map<ModelType, Table>, mt: ModelType, id: EndpointId,
                          timeoutSeconds: int, now: int)
  {
    mt in m && EntryOf(m[mt], id).Some? && now - EntryOf(m[mt], id).value.createdAt >= timeoutSeconds
  }

  /** Reclamation respects the last release: after a release at
      `released`, a timer armed with `timeoutSeconds` reclaims exactly when
      it fires at or after `released + timeoutSeconds`. */
  lemma ReclaimRespectsLastRelease(m: map<ModelType, Table>, mt: ModelType, id: EndpointId,
                                   released: int, timeoutSeconds: int, now: int)
    requires mt in m && DistinctIds(m[mt]) && IndexOf(m[mt], id).Some?
    ensures ShouldReclaim(m[mt := Released(m[mt], id, released)], mt, id, timeoutSeconds, now)
            <==> now >= released + timeoutSeconds
  {
    ReleasedSpec(m[mt], id, released);
  }

  /** The check ignores `in_use`: an entry handed out and never released is
      reclaimed exactly as if it were free. */
  lemma ReclaimIgnoresInUse(m: map<ModelType, Table>, mt: ModelType, k: nat, inUse: bool,
                            timeoutSeconds: int, now: int)
    requires mt in m && k < |m[mt]|
    ensures var t := m[mt];
      var flipped := t[k := Slot(t[k].id, t[k].entry.(inUse := inUse))];
      ShouldReclaim(m[mt := flipped], mt, t[k].id, timeoutSeconds, now)
        == ShouldReclaim(m, mt, t[k].id, timeoutSeconds, now)
  {
    var t := m[mt];
    var flipped := t[k := Slot(t[k].id, t[k].entry.(inUse := inUse))];
    IndexOfSameIds(t, flipped, t[k].id);
  }

  /** Status of a ping (the JSON body is left out). */
  datatype PingStatus = InvalidVeinType | Ready | Warming | NotReady

  datatype PingResponse = PingResponse(code: int, status: PingStatus)

  /** What looking up the endpoint in Vertex AI found. */
  datatype EndpointLookup = HasDeployedModels | NoDeployedModels | LookupFailed

  /** The response of `ping_endpoint`: the type is checked first, then the
      lookup decides between ready (200), warming (202) and not ready (404). */
  function PingReply(veinType: ModelType, lookup: EndpointLookup): (r: PingResponse)
    ensures r.code == 400 <==> veinType !in Models
    ensures r.code == 200 <==> veinType in Models && lookup == HasDeployedModels
    ensures r.code == 202 <==> veinType in Models && lookup == NoDeployedModels
    ensures r.code == 404 <==> veinType in Models && lookup == LookupFailed
    ensures r.status.Ready? <==> r.code == 200
  {
    if veinType !in Models then PingResponse(400, InvalidVeinType)
    else match lookup
      case HasDeployedModels => PingResponse(200, Ready)
      case NoDeployedModels => PingResponse(202, Warming)
      case LookupFailed => PingResponse(404, NotReady)
  }

  /** Why `create_endpoint` raised. */
  datatype CreateError =
    | UnknownModelType
    | EndpointCreateFailed
    | ModelNotFound
    | QuotaExceeded(message: string)
    | DeployFailed(message: string)

  /** The deploy error re-raised as "Quota exceeded" when its lower-cased
      text mentions a quota, an exceeded limit or a limit. */
  function ClassifyDeployError(message: string): (e: CreateError)
    ensures e.QuotaExceeded? || e.DeployFailed?
    ensures e.message == message
    ensures e.QuotaExceeded? <==>
              Contains(Lower(message), "quota") || Contains(Lower(message), "exceeded") || Contains(Lower(message), "limit")
  {
    var lowered := Lower(message);
    if Contains(lowered, "quota") || Contains(lowered, "exceeded") || Contains(lowered, "limit")
    then QuotaExceeded(message)
    else DeployFailed(message)
  }

  /** The classification ignores letter case. */
  lemma ClassifyIgnoresCase(message: string)
    ensures ClassifyDeployError(Lower(message)).QuotaExceeded?
            == ClassifyDeployError(message).QuotaExceeded?
  {
    LowerIdempotent(message);
  }

  /** What `aiplatform.Endpoint(...)` found for the configured endpoint id in
      `create_endpoint`. */
  datatype ExistingEndpoint = FoundWithModels | FoundWithoutModels | NotFound

  /** One endpoint of `aiplatform.Endpoint.list()` as the quota check sees
      it: its display name and its age in seconds, `None` when its
      `create_time` does not parse. */
  datatype ListedEndpoint = ListedEndpoint(displayName: string, ageSeconds: Option<int>)

  datatype EndpointListing = ListFailed | Listed(items: seq<ListedEndpoint>)

  /** The outcome of `check_quota_availability`: which listed endpoint (by
      position) it called `delete()` on, if any, and what it returned. */
  datatype QuotaAction = QuotaAction(deleted: Option<nat>, result: bool)

  /** ENDPOINT_QUOTA_THRESHOLD */
  const EndpointQuotaThreshold: nat := 8
  /** A temporary endpoint is old after an hour. */
  const TempAgeSeconds: int := 3600

  predicate IsTemp(e: ListedEndpoint)
  {
    Contains(e.displayName, "-temp")
  }

  predicate IsOldTemp(e: ListedEndpoint)
  {
    IsTemp(e) && e.ageSeconds.Some? && e.ageSeconds.value > TempAgeSeconds
  }

  /** The position of the first old temporary endpoint of the listing. */
  function FirstOldTemp(items: seq<ListedEndpoint>): (r: Option<nat>)
    ensures r.Some? ==> r.value < |items| && IsOldTemp(items[r.value])
    ensures r.Some? ==> forall j :: 0 <= j < r.value ==> !IsOldTemp(items[j])
    ensures r.None? ==> forall j :: 0 <= j < |items| ==> !IsOldTemp(items[j])
  {
    if items == [] then None
    else if IsOldTemp(items[0]) then Some(0)
    else match FirstOldTemp(items[1..])
      case None => None
      case Some(k) => Some(k + 1)
  }

  /** `check_quota_availability`. With 8 or more listed endpoints and no
      managed entry it calls `delete()` on the FIRST listed temporary
      endpoint older than an hour (not the oldest one), and returns whether
      that call succeeded. When the pool has any model type, the branch that
      should evict a managed endpoint raises before it deletes anything
      (main.py line 181 indexes a per-type table with 'created_at', line 183
      calls delete_endpoint with one argument), so the result is false. A
      temporary endpoint whose creation time does not parse also makes the
      whole check return false. */
  function CheckQuotaAvailability(m: map<ModelType, Table>, listing: EndpointListing,
                                  deleteOk: bool): (r: QuotaAction)
    ensures r.result ==> r.deleted.Some?
    ensures r.deleted.Some? ==>
              && listing.Listed? && |listing.items| >= EndpointQuotaThreshold && |m| == 0
              && r.deleted.value < |listing.items|
              && IsOldTemp(listing.items[r.deleted.value])
              && (forall j :: 0 <= j < r.deleted.value ==> !IsOldTemp(listing.items[j]))
              && r.result == deleteOk
    ensures |m| > 0 ==> r == QuotaAction(None, false)
    ensures listing.Listed? && |listing.items| >= EndpointQuotaThreshold && |m| == 0
            && (forall j :: 0 <= j < |listing.items| && IsTemp(listing.items[j]) ==> listing.items[j].ageSeconds.Some?)
            && (exists j :: 0 <= j < |listing.items| && IsOldTemp(listing.items[j]))
            ==> r.deleted.Some?
  {
    if listing.ListFailed? then QuotaAction(None, false)
    else if |listing.items| < EndpointQuotaThreshold then QuotaAction(None, false)
    else if |m| > 0 then QuotaAction(None, false)
    else if exists j :: 0 <= j < |listing.items| && IsTemp(listing.items[j]) && listing.items[j].ageSeconds.None?
    then QuotaAction(None, false)
    else match FirstOldTemp(listing.items)
      case None => QuotaAction(None, false)
      case Some(j) => QuotaAction(Some(j), deleteOk)
  }

  /**
   * The module-level state: `endpoints` (with the insertion order of its
   * keys in `typeOrder`), `usage_history` and DEFAULT_TIMEOUT_MINUTES.
   */
  class EndpointStore {
    var endpoints: map<ModelType, Table>
    var typeOrder: seq<ModelType>
    var usageHistory: map<ModelType, seq<int>>
    const defaultTimeoutMinutes: int

    ghost predicate Valid()
      reads this
    {
      TablesValid(endpoints, typeOrder)
    }

    /** Process start: an empty pool and an empty usage log. */
    constructor (defaultTimeoutMinutes: int)
      ensures Valid()
      ensures endpoints == map[] && typeOrder == [] && usageHistory == map[]
      ensures this.defaultTimeoutMinutes == defaultTimeoutMinutes
    {
      endpoints := map[];
      typeOrder := [];
      usageHistory := map[];
      this.defaultTimeoutMinutes := defaultTimeoutMinutes;
    }

    /** `endpoints[model_type] = {}` for a type not yet in the pool. */
    method InitTable(mt: ModelType)
      requires Valid() && mt !in endpoints
      modifies this
      ensures Valid()
      ensures endpoints == old(endpoints)[mt := []] && typeOrder == old(typeOrder) + [mt]
      ensures usageHistory == old(usageHistory)
    {
      endpoints := endpoints[mt := []];
      typeOrder := typeOrder + [mt];
    }

    /** `EndpointPool.get_available_endpoint`: an unseen type gets an empty
        table and nothing is handed out; otherwise see Acquire and
        AcquireSpec. */
    method GetAvailableEndpoint(mt: ModelType) returns (r: Option<EndpointId>)
      requires Valid()
      modifies this
      ensures Valid() && usageHistory == old(usageHistory)
      ensures mt !in old(endpoints) ==>
                r.None? && endpoints == old(endpoints)[mt := []] && typeOrder == old(typeOrder) + [mt]
      ensures mt in old(endpoints) ==>
                && typeOrder == old(typeOrder)
                && r == Acquire(old(endpoints)[mt]).0
                && endpoints == old(endpoints)[mt := Acquire(old(endpoints)[mt]).1]
    {
      if mt !in endpoints {
        InitTable(mt);
        return None;
      }
      var t := endpoints[mt];
      AcquireSpec(t);
      var k := MostRecentFree(t);
      if k.None? {
        return None;
      }
      var i := k.value;
      endpoints := endpoints[mt := t[i := Slot(t[i].id, t[i].entry.(inUse := true))]];
      r := Some(t[i].id);
    }

    /** `EndpointPool.release_endpoint`: a no-op for an unknown type or id;
        otherwise the entry becomes free with `created_at = now`. */
    method ReleaseEndpoint(mt: ModelType, id: EndpointId, now: int)
      requires Valid()
      modifies this
      ensures Valid() && typeOrder == old(typeOrder) && usageHistory == old(usageHistory)
      ensures mt !in old(endpoints) || IndexOf(old(endpoints)[mt], id).None? ==> endpoints == old(endpoints)
      ensures mt in old(endpoints) ==> endpoints == old(endpoints)[mt := Released(old(endpoints)[mt], id, now)]
    {
      if mt in endpoints && IndexOf(endpoints[mt], id).Some? {
        var t := endpoints[mt];
        ReleasedSpec(t, id, now);
        var k := IndexOf(t, id).value;
        endpoints := endpoints[mt := t[k := Slot(id, t[k].entry.(createdAt := now, inUse := false))]];
      }
    }

    /** `EndpointPool.add_endpoint`: insert the entry in use, then apply the
        capacity rule (see Added and AddedSpec). */
    method AddEndpoint(mt: ModelType, id: EndpointId, h: Handle, now: int)
      requires Valid()
      modifies this
      ensures Valid() && usageHistory == old(usageHistory)
      ensures typeOrder == if mt in old(endpoints) then old(typeOrder) else old(typeOrder) + [mt]
      ensures endpoints == old(endpoints)[mt := Added(if mt in old(endpoints) then old(endpoints)[mt] else [], id, h, now)]
    {
      var t0: Table := if mt in endpoints then endpoints[mt] else [];
      var t := Added(t0, id, h, now);
      AddedKeepsDistinct(t0, id, h, now);
      var order := typeOrder;
      if mt in endpoints {
        TablesValidUpdate(endpoints, order, mt, t);
      } else {
        TablesValidInsert(endpoints, order, mt, t);
        order := order + [mt];
      }
      typeOrder, endpoints := order, endpoints[mt := t];
    }

    /** `EndpointPool.delete_endpoint`: the teardown's success or failure is
        only logged, and the entry is forgotten either way. */
    method PoolDeleteEndpoint(mt: ModelType, id: EndpointId)
      requires Valid()
      modifies this
      ensures Valid() && typeOrder == old(typeOrder) && usageHistory == old(usageHistory)
      ensures mt !in old(endpoints) ==> endpoints == old(endpoints)
      ensures mt in old(endpoints) ==> endpoints == old(endpoints)[mt := Remove(old(endpoints)[mt], id)]
      ensures mt in old(endpoints) ==> IndexOf(endpoints[mt], id).None?
    {
      if mt in endpoints && IndexOf(endpoints[mt], id).Some? {
        endpoints := endpoints[mt := Remove(endpoints[mt], id)];
      }
    }

    /** The module-level `delete_endpoint`: the entry is forgotten only when
        the teardown succeeds; on failure it stays tracked. */
    method DeleteEndpoint(mt: ModelType, id: EndpointId, teardownOk: bool)
      requires Valid()
      modifies this
      ensures Valid() && typeOrder == old(typeOrder) && usageHistory == old(usageHistory)
      ensures !teardownOk || mt !in old(endpoints) ==> endpoints == old(endpoints)
      ensures teardownOk && mt in old(endpoints) ==>
                endpoints == old(endpoints)[mt := Remove(old(endpoints)[mt], id)]
    {
      if mt !in endpoints || IndexOf(endpoints[mt], id).None? {
        return;
      }
      if teardownOk {
        endpoints := endpoints[mt := Remove(endpoints[mt], id)];
      }
    }

    /** `usage_history[model_type].append(now)` */
    method RecordUsage(mt: ModelType, now: int)
      modifies this
      ensures endpoints == old(endpoints) && typeOrder == old(typeOrder)
      ensures usageHistory == old(usageHistory)[mt := UsageOf(old(usageHistory), mt) + [now]]
    {
      usageHistory := usageHistory[mt := UsageOf(usageHistory, mt) + [now]];
    }

    /** `calculate_adaptive_timeout`: the log of the type is pruned to the
        last 24 hours (see PruneMembers, PruneIdempotent) and the number of
        remaining uses picks the timeout in minutes. */
    method CalculateAdaptiveTimeout(mt: ModelType, now: int) returns (minutes: int)
      modifies this
      ensures endpoints == old(endpoints) && typeOrder == old(typeOrder)
      ensures usageHistory == old(usageHistory)[mt := Prune(UsageOf(old(usageHistory), mt), now)]
      ensures var n := |usageHistory[mt]|;
                && (n < 5 ==> minutes == MinTimeoutMinutes)
                && (n > 20 ==> minutes == MaxTimeoutMinutes)
                && (5 <= n <= 20 ==> minutes == defaultTimeoutMinutes)
    {
      var kept := Prune(UsageOf(usageHistory, mt), now);
      usageHistory := usageHistory[mt := kept];
      var usageCount := |kept|;
      if usageCount < 5 {
        minutes := MinTimeoutMinutes;
      } else if usageCount > 20 {
        minutes := MaxTimeoutMinutes;
      } else {
        minutes := defaultTimeoutMinutes;
      }
    }

    /** The arming half of `schedule_cleanup`: the timeout, in seconds, that
        the timer waits and later compares against. */
    method ArmCleanup(mt: ModelType, now: int) returns (timeoutSeconds: int)
      modifies this
      ensures endpoints == old(endpoints) && typeOrder == old(typeOrder)
      ensures usageHistory == old(usageHistory)[mt := Prune(UsageOf(old(usageHistory), mt), now)]
      ensures timeoutSeconds == 60 * TimeoutBucket(|usageHistory[mt]|, defaultTimeoutMinutes)
    {
      var minutes := CalculateAdaptiveTimeout(mt, now);
      timeoutSeconds := minutes * 60;
    }

    /** The firing half of `schedule_cleanup`: with the timeout computed when
        the timer was armed, reclaim the entry through the module-level
        delete_endpoint when ShouldReclaim holds. */
    method FireCleanup(mt: ModelType, id: EndpointId, timeoutSeconds: int, now: int, teardownOk: bool)
      requires Valid()
      modifies this
      ensures Valid() && typeOrder == old(typeOrder) && usageHistory == old(usageHistory)
      ensures ShouldReclaim(old(endpoints), mt, id, timeoutSeconds, now) && teardownOk ==>
                endpoints == old(endpoints)[mt := Remove(old(endpoints)[mt], id)]
      ensures !(ShouldReclaim(old(endpoints), mt, id, timeoutSeconds, now) && teardownOk) ==>
                endpoints == old(endpoints)
    {
      if mt in endpoints && EntryOf(endpoints[mt], id).Some? {
        var createdAt := EntryOf(endpoints[mt], id).value.createdAt;
        if now - createdAt >= timeoutSeconds {
          DeleteEndpoint(mt, id, teardownOk);
        }
      }
    }

    /** `cleanup_all`: every entry not in use is deleted through
        EndpointPool.delete_endpoint and counted; entries in use are left as
        they are, and every model type stays, even with an empty table. */
    method CleanupAll() returns (count: nat)
      requires Valid()
      modifies this
      ensures Valid() && typeOrder == old(typeOrder) && usageHistory == old(usageHistory)
      ensures endpoints == SweepAll(old(endpoints), old(typeOrder))
      ensures count == TotalFree(old(endpoints), old(typeOrder))
    {
      count := 0;
      var modelTypes := typeOrder;
      ghost var start := endpoints;
      for i := 0 to |modelTypes|
        invariant Valid() && typeOrder == modelTypes && usageHistory == old(usageHistory)
        invariant endpoints == SweepAll(start, modelTypes[..i])
        invariant count == TotalFree(start, modelTypes[..i])
      {
        var mt := modelTypes[i];
        SweepAllStep(start, modelTypes, i);
        if mt in endpoints {
          var removed := SweepType(mt);
          count := count + removed;
        }
      }
      assert modelTypes[..|modelTypes|] == modelTypes;
    }

    /** The inner loop of `cleanup_all` for one model type: it walks a
        snapshot of the table and deletes, through the pool's own
        delete_endpoint, every entry the snapshot shows as free. */
    method SweepType(mt: ModelType) returns (removed: nat)
      requires Valid() && mt in endpoints
      modifies this
      ensures Valid() && typeOrder == old(typeOrder) && usageHistory == old(usageHistory)
      ensures endpoints == old(endpoints)[mt := Swept(old(endpoints)[mt])]
      ensures removed == CountFree(old(endpoints)[mt])
    {
      var t0 := endpoints[mt];
      ghost var before := endpoints;
      removed := 0;
      SweepEnds(t0);
      assert before[mt := PartlySwept(t0, 0)] == before;
      for k := 0 to |t0|
        invariant Valid() && typeOrder == old(typeOrder) && usageHistory == old(usageHistory)
        invariant endpoints == before[mt := PartlySwept(t0, k)]
        invariant removed == FreeSeen(t0, k)
      {
        SweepProgress(t0, k);
        ghost var cur := PartlySwept(t0, k);
        ghost var next := PartlySwept(t0, k + 1);
        assert endpoints[mt] == cur;
        if !t0[k].entry.inUse {
          PoolDeleteEndpoint(mt, t0[k].id);
          removed := removed + 1;
        } else {
          assert cur == next;
        }
        UpdateTwice(before, mt, cur, next);
      }
    }

    /** The pool-facing part of `ping_endpoint`: an unknown type is refused
        before anything else; a known type records one use and replies from
        the lookup. The pool itself is never touched. */
    method Ping(veinType: ModelType, now: int, lookup: EndpointLookup) returns (resp: PingResponse)
      modifies this
      ensures endpoints == old(endpoints) && typeOrder == old(typeOrder)
      ensures resp == PingReply(veinType, lookup)
      ensures veinType !in Models ==> usageHistory == old(usageHistory)
      ensures veinType in Models ==>
                usageHistory == old(usageHistory)[veinType := UsageOf(old(usageHistory), veinType) + [now]]
    {
      if veinType !in Models {
        return PingResponse(400, InvalidVeinType);
      }
      RecordUsage(veinType, now);
      match lookup {
        case HasDeployedModels => resp := PingResponse(200, Ready);
        case NoDeployedModels => resp := PingResponse(202, Warming);
        case LookupFailed => resp := PingResponse(404, NotReady);
      }
    }

    /** `create_endpoint`: unknown types are refused; an endpoint that
        already serves a model is returned without touching the pool;
        otherwise the model is looked up and deployed (on a newly created
        endpoint when the lookup found none) and the endpoint is added to
        the pool. `createOk` says whether `Endpoint.create` succeeded,
        `modelFound` whether `aiplatform.Model(...)` found the model, and
        `deployError` is the text of the error `model.deploy` raised, `None`
        when it succeeded. A deploy error is classified by
        ClassifyDeployError. */
    method CreateEndpoint(mt: ModelType, now: int, existing: ExistingEndpoint,
                          createOk: bool, modelFound: bool, deployError: Option<string>)
      returns (r: Result<EndpointId, CreateError>)
      requires Valid()
      modifies this
      ensures Valid() && usageHistory == old(usageHistory)
      ensures mt !in Models ==> r == Err(UnknownModelType)
      ensures mt in Models && existing == FoundWithModels ==> r == Ok(Models[mt].endpointId)
      ensures mt in Models && existing == NotFound && !createOk ==> r == Err(EndpointCreateFailed)
      ensures (mt in Models && existing != FoundWithModels && (existing == NotFound ==> createOk)
               && !modelFound) ==> r == Err(ModelNotFound)
      ensures (mt in Models && existing != FoundWithModels && (existing == NotFound ==> createOk)
               && modelFound && deployError.Some?) ==> r == Err(ClassifyDeployError(deployError.value))
      ensures (mt in Models && existing != FoundWithModels && (existing == NotFound ==> createOk)
               && modelFound && deployError.None?) ==> r == Ok(Models[mt].endpointId)
      ensures r.Ok? ==> r.value == Models[mt].endpointId
      ensures !(r.Ok? && existing != FoundWithModels) ==>
                endpoints == old(endpoints) && typeOrder == old(typeOrder)
      ensures r.Ok? && existing != FoundWithModels ==>
                var id := Models[mt].endpointId;
                && endpoints == old(endpoints)[mt := Added(if mt in old(endpoints) then old(endpoints)[mt] else [],
                                                           id, EndpointHandle(id), now)]
                && typeOrder == if mt in old(endpoints) then old(typeOrder) else old(typeOrder) + [mt]
    {
      if mt !in Models {
        return Err(UnknownModelType);
      }
      var id := Models[mt].endpointId;
      match existing {
        case FoundWithModels =>
          return Ok(id);
        case FoundWithoutModels =>
        case NotFound =>
          if !createOk {
            return Err(EndpointCreateFailed);
          }
      }
      if !modelFound {
        return Err(ModelNotFound);
      }
      if deployError.Some? {
        return Err(ClassifyDeployError(deployError.value));
      }
      AddEndpoint(mt, id, EndpointHandle(id), now);
      r := Ok(id);
    }
  }

  /** The pool after cleanup_all has visited the given model types. */
  function SweepAll(m: map<ModelType, Table>, types: seq<ModelType>): map<ModelType, Table>
  {
    if types == [] then m
    else
      var mt := types[|types| - 1];
      var p := SweepAll(m, types[..|types| - 1]);
      if mt in m then p[mt := Swept(m[mt])] else p
  }

  /** cleanup_all keeps every model type and sweeps exactly the visited ones:
      an entry survives iff it is in use. */
  lemma {:induction false} SweepAllSpec(m: map<ModelType, Table>, types: seq<ModelType>)
    ensures SweepAll(m, types).Keys == m.Keys
    ensures forall mt :: mt in m && mt in types ==> SweepAll(m, types)[mt] == Swept(m[mt])
    ensures forall mt :: mt in m && mt !in types ==> SweepAll(m, types)[mt] == m[mt]
    decreases |types|
  {
    if types != [] {
      var q := types[..|types| - 1];
      SweepAllSpec(m, q);
      assert types == q + [types[|types| - 1]];
    }
  }

  /** One more model type visited by cleanup_all's outer loop. */
  lemma SweepAllStep(m: map<ModelType, Table>, types: seq<ModelType>, i: nat)
    requires i < |types| && forall a, b :: 0 <= a < b < |types| ==> types[a] != types[b]
    ensures var mt := types[i]; var p := SweepAll(m, types[..i]);
      && (mt in p <==> mt in m)
      && (mt in m ==> && SweepAll(m, types[..i + 1]) == p[mt := Swept(p[mt])]
                      && TotalFree(m, types[..i + 1]) == TotalFree(m, types[..i]) + CountFree(p[mt]))
      && (mt !in m ==> && SweepAll(m, types[..i + 1]) == p
                       && TotalFree(m, types[..i + 1]) == TotalFree(m, types[..i]))
  {
    var mt := types[i];
    assert types[..i + 1][..i] == types[..i];
    assert mt !in types[..i];
    SweepAllSpec(m, types[..i]);
  }

  /** cleanup_all's count is the number of entries it removed. */
  lemma {:induction false} TotalFreeIsRemoved(m: map<ModelType, Table>, types: seq<ModelType>)
    ensures TotalFree(m, types) == TotalRemoved(m, types)
  {
    if types != [] {
      TotalFreeIsRemoved(m, types[..|types| - 1]);
      var mt := types[|types| - 1];
      if mt in m {
        SweptSpec(m[mt]);
      }
    }
  }

  /** Entries the sweep removes over the given model types. */
  function TotalRemoved(m: map<ModelType, Table>, types: seq<ModelType>): nat
  {
    if types == [] then 0
    else
      TotalRemoved(m, types[..|types| - 1])
        + (var mt := types[|types| - 1]; if mt in m then |m[mt]| - |Swept(m[mt])| else 0)
  }
}
