/**
 * The `/predict/<vein_type>` request ladder: request checks, admission of
 * the endpoint into the pool, instance validation, the remote predict call
 * and the release of the endpoint.
 *
 * The remote calls and the base64 decoder are parameters: `lookupOk` says
 * whether the `aiplatform.Endpoint(...)` lookup of an untracked id returned,
 * `remote` maps the processed instance contents to what the predict call
 * did, `decodedLength` gives the decoded byte length of a text or None when
 * decoding raises.
 */
module Predict {
  import opened Wrappers
  import opened Text
  import opened PoolTable
  import opened Endpoints

  // ---------------------------------------------------------------------
  // The request and the reply.

  /** The value under an instance's `content` key. */
  datatype ContentValue = Text(text: string) | NotText

  /** One element of `instances`: a non-object, or an object whose
      `content` key may be missing. */
  datatype Instance = NotAnObject | Object(content: Option<ContentValue>)

  /** The value under `instances`: a JSON list, or anything else. */
  datatype Instances = NotAList | List(items: seq<Instance>)

  /** A JSON object body: `instances` may be missing; `metadata.endpointId`
      is None when metadata or the key is missing. */
  datatype PredictRequest = PredictRequest(instances: Option<Instances>, metadataEndpointId: Option<string>)

  /** A confidence score in its decimal text form. */
  datatype Confidence = Confidence(decimal: string)

  /** `response.predictions[i]`: a falsy value, or a dict whose
      `displayNames` and `confidences` keys may be missing. */
  datatype PredictionEntry = Falsy | Fields(displayNames: Option<seq<string>>, confidences: Option<seq<Confidence>>)

  datatype PredictResponse = PredictResponse(
    predictions: seq<PredictionEntry>,
    deployedModelId: string,
    model: string,
    modelDisplayName: string,
    modelVersionId: string)

  /** What `endpoint.predict(...)` did. */
  datatype RemoteCall = Raised | Returned(response: PredictResponse)

  /** The 200 body, without its timestamp. */
  datatype PredictResult = PredictResult(
    displayNames: seq<string>,
    confidences: seq<Confidence>,
    deployedModelId: string,
    model: string,
    modelDisplayName: string,
    modelVersionId: string)

  /** The ValueErrors of the instance checks. A decoded size over the cap is
      re-raised as an invalid-base64 error, hence the flag. */
  datatype ValidationError =
    | NotNonEmptyArray
    | MissingContent
    | ContentNotText
    | InvalidBase64(tooLarge: bool)

  datatype PredictFailure =
    | EndpointLookupFailed
    | InvalidInstances(error: ValidationError)
    | RemoteRaised
    | NoPredictions

  datatype PredictReply =
    | InvalidRequestFormat
    | InvalidVeinType
    | PredictionFailed(endpointId: EndpointId, failure: PredictFailure)
    | Predicted(result: PredictResult)

  function StatusCode(r: PredictReply): int
  {
    match r
    case InvalidRequestFormat => 400
    case InvalidVeinType => 400
    case PredictionFailed(_, _) => 500
    case Predicted(_) => 200
  }

  /** The 1.5 MB cap on a decoded image. */
  const MaxImageBytes: nat := 1572864

  // ---------------------------------------------------------------------
  // Instance validation.

  /** Python's `str.strip()`. */
  function Strip(s: string): (r: string)
    ensures r == [] || (!IsPySpace(r[0]) && !IsPySpace(r[|r| - 1]))
    decreases |s|
  {
    if s == [] then []
    else if IsPySpace(s[0]) then Strip(s[1..])
    else if IsPySpace(s[|s| - 1]) then Strip(s[..|s| - 1])
    else s
  }

  /** `.replace('\n', '').replace('\r', '')` */
  function DropLineBreaks(s: string): string
  {
    if s == [] then []
    else (if s[0] == '\n' || s[0] == '\r' then [] else [s[0]]) + DropLineBreaks(s[1..])
  }

  /** The characters of s that are not Python whitespace, in order. */
  function NonSpace(s: string): string
  {
    if s == [] then []
    else (if IsPySpace(s[0]) then [] else [s[0]]) + NonSpace(s[1..])
  }

  /** The cleaning step applied to each content string. */
  function NormalizeContent(s: string): string
  {
    DropLineBreaks(Strip(s))
  }

  function CheckInstance(inst: Instance, decodedLength: string -> Option<nat>): Result<string, ValidationError>
  {
    match inst
    case NotAnObject => Err(MissingContent)
    case Object(None) => Err(MissingContent)
    case Object(Some(NotText)) => Err(ContentNotText)
    case Object(Some(Text(s))) =>
      var c := NormalizeContent(s);
      match decodedLength(c)
      case None => Err(InvalidBase64(false))
      case Some(n) => if n > MaxImageBytes then Err(InvalidBase64(true)) else Ok(c)
  }

  /** The loop over the instances, stopping at the first failing one. */
  function ValidateItems(items: seq<Instance>, decodedLength: string -> Option<nat>): Result<seq<string>, ValidationError>
  {
    if items == [] then Ok([])
    else
      match CheckInstance(items[0], decodedLength)
      case Err(e) => Err(e)
      case Ok(c) => Prepend([c], ValidateItems(items[1..], decodedLength))
  }

  function Prepend(done: seq<string>, rest: Result<seq<string>, ValidationError>): Result<seq<string>, ValidationError>
  {
    match rest
    case Err(e) => Err(e)
    case Ok(cs) => Ok(done + cs)
  }

  /** The whole validation: a non-empty list, then each instance. */
  function ValidateInstances(instances: Instances, decodedLength: string -> Option<nat>): Result<seq<string>, ValidationError>
  {
    match instances
    case NotAList => Err(NotNonEmptyArray)
    case List(items) => if items == [] then Err(NotNonEmptyArray) else ValidateItems(items, decodedLength)
  }

  /** The validation loop of predict_endpoint. */
  method ProcessInstances(instances: Instances, decodedLength: string -> Option<nat>)
    returns (r: Result<seq<string>, ValidationError>)
    ensures r == ValidateInstances(instances, decodedLength)
  {
    if instances.NotAList? || instances.items == [] {
      return Err(NotNonEmptyArray);
    }
    var items := instances.items;
    var processed: seq<string> := [];
    var k := 0;
    PrependStart(items, decodedLength);
    while k < |items|
      invariant 0 <= k <= |items|
      invariant ValidateItems(items, decodedLength) == Prepend(processed, ValidateItems(items[k..], decodedLength))
    {
      var c := CheckInstance(items[k], decodedLength);
      ValidateItemsStep(items, k, decodedLength);
      if c.Err? {
        return Err(c.error);
      }
      PrependTwice(processed, c.value, ValidateItems(items[k + 1..], decodedLength));
      processed := processed + [c.value];
      k := k + 1;
    }
    PrependEnd(items, processed, decodedLength);
    r := Ok(processed);
  }

  lemma PrependStart(items: seq<Instance>, decodedLength: string -> Option<nat>)
    ensures ValidateItems(items, decodedLength) == Prepend([], ValidateItems(items[0..], decodedLength))
  {
    assert items[0..] == items;
    var whole := ValidateItems(items, decodedLength);
    if whole.Ok? { assert [] + whole.value == whole.value; }
  }

  lemma PrependEnd(items: seq<Instance>, processed: seq<string>, decodedLength: string -> Option<nat>)
    ensures Prepend(processed, ValidateItems(items[|items|..], decodedLength)) == Ok(processed)
  {
    assert items[|items|..] == [];
    assert processed + [] == processed;
  }

  /** One turn of the validation loop. */
  lemma ValidateItemsStep(items: seq<Instance>, k: nat, decodedLength: string -> Option<nat>)
    requires k < |items|
    ensures var c := CheckInstance(items[k], decodedLength);
      ValidateItems(items[k..], decodedLength) ==
        if c.Err? then Err(c.error) else Prepend([c.value], ValidateItems(items[k + 1..], decodedLength))
  {
    assert items[k..][0] == items[k] && items[k..][1..] == items[k + 1..];
  }

  lemma PrependTwice(done: seq<string>, c: string, rest: Result<seq<string>, ValidationError>)
    ensures Prepend(done, Prepend([c], rest)) == Prepend(done + [c], rest)
  {
    if rest.Ok? {
      assert done + ([c] + rest.value) == done + [c] + rest.value;
    }
  }

  /** The loop accepts the list iff every instance passes; then it keeps one
      cleaned content per instance, in order; otherwise it reports the error
      of the first failing instance. */
  lemma {:induction false} ValidateItemsSpec(items: seq<Instance>, decodedLength: string -> Option<nat>)
    ensures ValidateItems(items, decodedLength).Ok? <==>
              forall i :: 0 <= i < |items| ==> CheckInstance(items[i], decodedLength).Ok?
    ensures ValidateItems(items, decodedLength).Ok? ==>
              && |ValidateItems(items, decodedLength).value| == |items|
              && forall i :: 0 <= i < |items| ==>
                   ValidateItems(items, decodedLength).value[i] == CheckInstance(items[i], decodedLength).value
    ensures ValidateItems(items, decodedLength).Err? ==>
              exists k :: 0 <= k < |items|
                && (forall j :: 0 <= j < k ==> CheckInstance(items[j], decodedLength).Ok?)
                && CheckInstance(items[k], decodedLength) == Err(ValidateItems(items, decodedLength).error)
    decreases |items|
  {
    if items != [] {
      var rest := items[1..];
      ValidateItemsSpec(rest, decodedLength);
      var r := ValidateItems(items, decodedLength);
      var c := CheckInstance(items[0], decodedLength);
      if c.Ok? {
        var rr := ValidateItems(rest, decodedLength);
        forall i | 1 <= i < |items| ensures items[i] == rest[i - 1] { }
        if rr.Err? {
          var k :| 0 <= k < |rest|
                && (forall j :: 0 <= j < k ==> CheckInstance(rest[j], decodedLength).Ok?)
                && CheckInstance(rest[k], decodedLength) == Err(rr.error);
          assert CheckInstance(items[k + 1], decodedLength) == Err(r.error);
          assert forall j :: 0 <= j < k + 1 ==> CheckInstance(items[j], decodedLength).Ok? by {
            forall j | 0 <= j < k + 1 ensures CheckInstance(items[j], decodedLength).Ok? {
              if j > 0 { assert items[j] == rest[j - 1]; }
            }
          }
        }
      } else {
        assert CheckInstance(items[0], decodedLength) == Err(r.error);
      }
    }
  }

  /** Cleaning removes only whitespace, leaves no line break behind, leaves
      no whitespace at either end, and a second pass changes nothing. */
  lemma NormalizeContentSpec(s: string)
    ensures var r := NormalizeContent(s);
      && NonSpace(r) == NonSpace(s)
      && '\n' !in r && '\r' !in r
      && (r == [] || (!IsPySpace(r[0]) && !IsPySpace(r[|r| - 1])))
      && NormalizeContent(r) == r
  {
    var t := Strip(s);
    StripNonSpace(s);
    DropLineBreaksSpec(t);
    if t != [] {
      DropLineBreaksEnds(t);
    }
    var r := DropLineBreaks(t);
    StripUnchanged(r);
    DropLineBreaksUnchanged(r);
  }

  lemma {:induction false} StripNonSpace(s: string)
    ensures NonSpace(Strip(s)) == NonSpace(s)
    decreases |s|
  {
    if s != [] {
      if IsPySpace(s[0]) {
        StripNonSpace(s[1..]);
      } else if IsPySpace(s[|s| - 1]) {
        var p := s[..|s| - 1];
        StripNonSpace(p);
        NonSpaceAppend(p, [s[|s| - 1]]);
        assert s == p + [s[|s| - 1]];
      }
    }
  }

  lemma {:induction false} NonSpaceAppend(a: string, b: string)
    ensures NonSpace(a + b) == NonSpace(a) + NonSpace(b)
    decreases |a|
  {
    if a == [] {
      assert a + b == b;
    } else {
      assert (a + b)[1..] == a[1..] + b;
      NonSpaceAppend(a[1..], b);
    }
  }

  lemma {:induction false} DropLineBreaksSpec(s: string)
    ensures NonSpace(DropLineBreaks(s)) == NonSpace(s)
    ensures '\n' !in DropLineBreaks(s) && '\r' !in DropLineBreaks(s)
    decreases |s|
  {
    if s != [] {
      DropLineBreaksSpec(s[1..]);
      var head := if s[0] == '\n' || s[0] == '\r' then [] else [s[0]];
      NonSpaceAppend(head, DropLineBreaks(s[1..]));
    }
  }

  /** A string that starts and ends with non-whitespace keeps both ends
      through DropLineBreaks. */
  lemma DropLineBreaksEnds(s: string)
    requires s != [] && !IsPySpace(s[0]) && !IsPySpace(s[|s| - 1])
    ensures var r := DropLineBreaks(s); r != [] && r[0] == s[0] && r[|r| - 1] == s[|s| - 1]
  {
    DropLineBreaksLast(s);
  }

  lemma {:induction false} DropLineBreaksLast(s: string)
    requires s != [] && s[|s| - 1] != '\n' && s[|s| - 1] != '\r'
    ensures var r := DropLineBreaks(s); r != [] && r[|r| - 1] == s[|s| - 1]
    decreases |s|
  {
    if |s| > 1 {
      assert s[1..][|s| - 2] == s[|s| - 1];
      DropLineBreaksLast(s[1..]);
    }
  }

  lemma StripUnchanged(s: string)
    requires s == [] || (!IsPySpace(s[0]) && !IsPySpace(s[|s| - 1]))
    ensures Strip(s) == s
  {
  }

  lemma {:induction false} DropLineBreaksUnchanged(s: string)
    requires '\n' !in s && '\r' !in s
    ensures DropLineBreaks(s) == s
    decreases |s|
  {
    if s != [] {
      assert s[0] in s;
      assert forall c :: c in s[1..] ==> c in s;
      DropLineBreaksUnchanged(s[1..]);
      assert [s[0]] + s[1..] == s;
    }
  }

  // ---------------------------------------------------------------------
  // The ladder.

  /** `metadata.get('endpointId') or MODELS[vein_type]['endpoint_id']` */
  function ChosenEndpointId(veinType: ModelType, metadataEndpointId: Option<string>): (id: EndpointId)
    requires veinType in Models
    ensures metadataEndpointId.Some? && metadataEndpointId.value != [] ==> id == metadataEndpointId.value
    ensures metadataEndpointId.None? || metadataEndpointId.value == [] ==> id == Models[veinType].endpointId
  {
    match metadataEndpointId
    case Some(given) => if given != [] then given else Models[veinType].endpointId
    case None => Models[veinType].endpointId
  }

  /** The pool already holds `id` under type `mt`. */
  predicate Tracked(m: map<ModelType, Table>, mt: ModelType, id: EndpointId)
  {
    mt in m && IndexOf(m[mt], id).Some?
  }

  /** The pool after admission: an id already tracked is used as it is
      (not marked in use); otherwise it is added in use. */
  function Admitted(m: map<ModelType, Table>, mt: ModelType, id: EndpointId, now: int): map<ModelType, Table>
  {
    if Tracked(m, mt, id) then m
    else m[mt := Added(if mt in m then m[mt] else [], id, EndpointHandle(id), now)]
  }

  /** The pool after the lookup of an untracked id raised: a type seen for
      the first time keeps the empty table made for it before the lookup. */
  function LookupFailedPool(m: map<ModelType, Table>, mt: ModelType): (r: map<ModelType, Table>)
    ensures mt in r && r[mt] == (if mt in m then m[mt] else [])
    ensures forall k :: k in m ==> k in r && r[k] == m[k]
    ensures forall k :: k in r ==> k in m || k == mt
  {
    if mt in m then m else m[mt := []]
  }

  /** Shapes the first prediction into the 200 body; list defaults are []. */
  function FormatPrediction(resp: PredictResponse): Result<PredictResult, PredictFailure>
  {
    if resp.predictions == [] || resp.predictions[0].Falsy? then Err(NoPredictions)
    else
      var p := resp.predictions[0];
      Ok(PredictResult(
        if p.displayNames.Some? then p.displayNames.value else [],
        if p.confidences.Some? then p.confidences.value else [],
        resp.deployedModelId, resp.model, resp.modelDisplayName, resp.modelVersionId))
  }

  /** The reply once the remote call has been made. */
  function RemoteReply(id: EndpointId, call: RemoteCall): PredictReply
  {
    match call
    case Raised => PredictionFailed(id, RemoteRaised)
    case Returned(resp) =>
      match FormatPrediction(resp)
      case Err(f) => PredictionFailed(id, f)
      case Ok(result) => Predicted(result)
  }

  /** `predict_endpoint`. `now` is the time of the request, `doneAt` the
      time the remote call returns or raises. */
  method PredictEndpoint(store: EndpointStore, veinType: ModelType, body: Option<PredictRequest>,
                         now: int, doneAt: int, lookupOk: bool,
                         decodedLength: string -> Option<nat>, remote: seq<string> -> RemoteCall)
    returns (reply: PredictReply)
    requires store.Valid()
    modifies store
    ensures store.Valid()
    ensures body.None? || body.value.instances.None? ==>
              reply == InvalidRequestFormat && unchanged(store)
    ensures body.Some? && body.value.instances.Some? && veinType !in Models ==>
              reply == PredictReply.InvalidVeinType && unchanged(store)
    ensures body.Some? && body.value.instances.Some? && veinType in Models ==>
              store.typeOrder == (if veinType in old(store.endpoints) then old(store.typeOrder)
                                  else old(store.typeOrder) + [veinType])
    ensures body.Some? && body.value.instances.Some? && veinType in Models ==>
              var id := ChosenEndpointId(veinType, body.value.metadataEndpointId);
              !Tracked(old(store.endpoints), veinType, id) && !lookupOk ==>
                && reply == PredictionFailed(id, EndpointLookupFailed)
                && store.endpoints == LookupFailedPool(old(store.endpoints), veinType)
                && store.usageHistory == old(store.usageHistory)
    ensures body.Some? && body.value.instances.Some? && veinType in Models ==>
              var id := ChosenEndpointId(veinType, body.value.metadataEndpointId);
              var admitted := Admitted(old(store.endpoints), veinType, id, now);
              Tracked(old(store.endpoints), veinType, id) || lookupOk ==>
              && store.usageHistory == old(store.usageHistory)[veinType := UsageOf(old(store.usageHistory), veinType) + [now]]
              && match ValidateInstances(body.value.instances.value, decodedLength)
                 case Err(e) =>
                   reply == PredictionFailed(id, InvalidInstances(e)) && store.endpoints == admitted
                 case Ok(contents) =>
                   && reply == RemoteReply(id, remote(contents))
                   && store.endpoints == admitted[veinType := Released(admitted[veinType], id, doneAt)]
  {
    if body.None? || body.value.instances.None? {
      return InvalidRequestFormat;
    }
    if veinType !in Models {
      return PredictReply.InvalidVeinType;
    }
    var id := ChosenEndpointId(veinType, body.value.metadataEndpointId);
    var admitted := Admit(store, veinType, id, now, lookupOk);
    if !admitted {
      return PredictionFailed(id, EndpointLookupFailed);
    }
    var processed := ProcessInstances(body.value.instances.value, decodedLength);
    if processed.Err? {
      return PredictionFailed(id, InvalidInstances(processed.error));
    }
    var call := remote(processed.value);
    store.ReleaseEndpoint(veinType, id, doneAt);
    reply := RemoteReply(id, call);
  }

  /** The admission step of the ladder. A type seen for the first time gets
      an empty table; a chosen id the pool does not track is looked up, and
      when the lookup returns it is added (in use). Once the endpoint is
      admitted one use of the type is recorded. */
  method Admit(store: EndpointStore, veinType: ModelType, id: EndpointId, now: int, lookupOk: bool)
    returns (admitted: bool)
    requires store.Valid()
    modifies store
    ensures store.Valid()
    ensures admitted <==> Tracked(old(store.endpoints), veinType, id) || lookupOk
    ensures store.typeOrder == if veinType in old(store.endpoints) then old(store.typeOrder) else old(store.typeOrder) + [veinType]
    ensures admitted ==> store.endpoints == Admitted(old(store.endpoints), veinType, id, now)
    ensures admitted ==> store.usageHistory == old(store.usageHistory)[veinType := UsageOf(old(store.usageHistory), veinType) + [now]]
    ensures !admitted ==> store.endpoints == LookupFailedPool(old(store.endpoints), veinType)
    ensures !admitted ==> store.usageHistory == old(store.usageHistory)
  {
    if !Tracked(store.endpoints, veinType, id) {
      if veinType !in store.endpoints {
        store.InitTable(veinType);
      }
      if !lookupOk {
        return false;
      }
      store.AddEndpoint(veinType, id, EndpointHandle(id), now);
    }
    store.RecordUsage(veinType, now);
    admitted := true;
  }

  /** The ladder with a release on every path after admission, as the
      inner `except` evidently intends: a request whose instances fail
      validation also returns the endpoint to the pool, so no admitted
      request leaves it in use. */
  method PredictEndpointReleasing(store: EndpointStore, veinType: ModelType, body: Option<PredictRequest>,
                                  now: int, doneAt: int, lookupOk: bool,
                                  decodedLength: string -> Option<nat>, remote: seq<string> -> RemoteCall)
    returns (reply: PredictReply)
    requires store.Valid()
    modifies store
    ensures store.Valid()
    ensures body.None? || body.value.instances.None? ==>
              reply == InvalidRequestFormat && unchanged(store)
    ensures body.Some? && body.value.instances.Some? && veinType !in Models ==>
              reply == PredictReply.InvalidVeinType && unchanged(store)
    ensures body.Some? && body.value.instances.Some? && veinType in Models ==>
              store.typeOrder == (if veinType in old(store.endpoints) then old(store.typeOrder)
                                  else old(store.typeOrder) + [veinType])
    ensures body.Some? && body.value.instances.Some? && veinType in Models ==>
              var id := ChosenEndpointId(veinType, body.value.metadataEndpointId);
              !Tracked(old(store.endpoints), veinType, id) && !lookupOk ==>
                && reply == PredictionFailed(id, EndpointLookupFailed)
                && store.endpoints == LookupFailedPool(old(store.endpoints), veinType)
                && store.usageHistory == old(store.usageHistory)
    ensures body.Some? && body.value.instances.Some? && veinType in Models ==>
              var id := ChosenEndpointId(veinType, body.value.metadataEndpointId);
              var admitted := Admitted(old(store.endpoints), veinType, id, now);
              Tracked(old(store.endpoints), veinType, id) || lookupOk ==>
              && store.usageHistory == old(store.usageHistory)[veinType := UsageOf(old(store.usageHistory), veinType) + [now]]
              && store.endpoints == admitted[veinType := Released(admitted[veinType], id, doneAt)]
              && veinType in store.endpoints
              && EntryOf(store.endpoints[veinType], id).Some?
              && !EntryOf(store.endpoints[veinType], id).value.inUse
              && match ValidateInstances(body.value.instances.value, decodedLength)
                 case Err(e) => reply == PredictionFailed(id, InvalidInstances(e))
                 case Ok(contents) => reply == RemoteReply(id, remote(contents))
  {
    if body.None? || body.value.instances.None? {
      return InvalidRequestFormat;
    }
    if veinType !in Models {
      return PredictReply.InvalidVeinType;
    }
    var id := ChosenEndpointId(veinType, body.value.metadataEndpointId);
    RemoteCallReleases(store.endpoints, veinType, id, now, doneAt);
    var admitted := Admit(store, veinType, id, now, lookupOk);
    if !admitted {
      return PredictionFailed(id, EndpointLookupFailed);
    }
    var processed := ProcessInstances(body.value.instances.value, decodedLength);
    if processed.Err? {
      store.ReleaseEndpoint(veinType, id, doneAt);
      return PredictionFailed(id, InvalidInstances(processed.error));
    }
    var call := remote(processed.value);
    store.ReleaseEndpoint(veinType, id, doneAt);
    reply := RemoteReply(id, call);
  }

  // ---------------------------------------------------------------------
  // What the ladder promises.

  /** After admission the chosen id is tracked, and a freshly added entry
      is in use. */
  lemma AdmittedTracks(m: map<ModelType, Table>, mt: ModelType, id: EndpointId, now: int)
    requires mt in m ==> DistinctIds(m[mt])
    ensures var a := Admitted(m, mt, id, now);
      && mt in a && DistinctIds(a[mt]) && IndexOf(a[mt], id).Some?
      && (!Tracked(m, mt, id) ==>
            EntryOf(a[mt], id) == Some(Entry(EndpointHandle(id), now, true)))
      && (Tracked(m, mt, id) ==> a == m)
  {
    if !Tracked(m, mt, id) {
      var t := if mt in m then m[mt] else [];
      AddedSpec(t, id, EndpointHandle(id), now);
    }
  }

  /** Release-on-failure and on success: once the remote call was made,
      the endpoint is tracked, free, and stamped with the time the call
      ended, whatever the call did. */
  lemma RemoteCallReleases(m: map<ModelType, Table>, mt: ModelType, id: EndpointId, now: int, doneAt: int)
    requires mt in m ==> DistinctIds(m[mt])
    ensures var a := Admitted(m, mt, id, now);
      mt in a &&
      var r := Released(a[mt], id, doneAt);
      && EntryOf(r, id).Some?
      && !EntryOf(r, id).value.inUse
      && EntryOf(r, id).value.createdAt == doneAt
  {
    AdmittedTracks(m, mt, id, now);
    var a := Admitted(m, mt, id, now);
    ReleasedSpec(a[mt], id, doneAt);
  }

  /** A failed validation on a fresh endpoint leaves it tracked and in use:
      nothing releases it on that path. */
  lemma ValidationFailureKeepsInUse(m: map<ModelType, Table>, mt: ModelType, id: EndpointId, now: int)
    requires mt in m ==> DistinctIds(m[mt])
    requires !Tracked(m, mt, id)
    ensures var a := Admitted(m, mt, id, now);
      mt in a && EntryOf(a[mt], id).Some? && EntryOf(a[mt], id).value.inUse
  {
    AdmittedTracks(m, mt, id, now);
  }

  /** The 200 reply happens exactly when the call returned a truthy first
      prediction; its lists are that prediction's, or empty. */
  lemma RemoteReplySpec(id: EndpointId, call: RemoteCall)
    ensures RemoteReply(id, call).Predicted? <==>
              call.Returned? && call.response.predictions != [] && call.response.predictions[0].Fields?
    ensures RemoteReply(id, call).Predicted? ==>
              var p := call.response.predictions[0];
              && (p.displayNames.Some? ==> RemoteReply(id, call).result.displayNames == p.displayNames.value)
              && (p.displayNames.None? ==> RemoteReply(id, call).result.displayNames == [])
              && (p.confidences.Some? ==> RemoteReply(id, call).result.confidences == p.confidences.value)
              && (p.confidences.None? ==> RemoteReply(id, call).result.confidences == [])
    ensures !RemoteReply(id, call).Predicted? ==>
              StatusCode(RemoteReply(id, call)) == 500 && RemoteReply(id, call).endpointId == id
  {
  }
}
