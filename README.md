# VExUS endpoints on demand — a Dafny model

This project models the core of the VExUS ultrasound classifier's
"endpoints on demand" service, plus the small scripts that go with it. The
service keeps a pool of Vertex AI prediction endpoints per vein type. A
prediction request admits the endpoint named by its metadata or by the
configured id for the type. An id the pool does not track is looked up and
added in use; a tracked one is used as it is. The endpoint is released
after the remote prediction, with its timestamp refreshed. The pool also
offers acquisition of a free endpoint and a per-endpoint cleanup timer
with an adaptive timeout; `get_available_endpoint` and `schedule_cleanup`
have no callers, and the model covers them as operations of their own. The
sweep of all free endpoints, `cleanup_all`, is the `POST /cleanup` route.
`create_endpoint` and `check_quota_availability` have no callers either.
The scripts modelled are:

- the data-URL helpers of the image-format test;
- the magic-number and base64 checks of the image-format script;
- the interactive endpoint-cleanup script;
- the menu reordering of the site generator.

Modules, one file each:

- `Wrappers` (wrappers.dfy): `Option` and `Result`.
- `Text` (text.dfy): string helpers shared by the modules.
  - the whitespace sets of JavaScript and Python;
  - ASCII lower-casing;
  - substring search;
  - splitting on one character (`String.prototype.split` with a
    one-character separator).
- `PoolTable` (pool_table.dfy): the table of one vein type.
  - A Python dict is read as a sequence of `Slot(id, entry)` in insertion
    order. Python's `max`/`min` with a key return the FIRST extreme in that
    order, so the model does the same.
  - Acquire, release, add with capacity eviction, and remove are functions
    on this table. Their properties are proved as lemmas.
- `Usage` (usage.dfy): the 24-hour usage window and the timeout buckets of
  `calculate_adaptive_timeout`.
- `Endpoints` (endpoint_store.dfy): the module-level state as a class.
  - `EndpointStore` holds `endpoints`, the key order of that dict,
    `usage_history` and the default timeout.
  - Its methods are the `EndpointPool` operations, `delete_endpoint`,
    `calculate_adaptive_timeout`, `schedule_cleanup` (armed and fired as
    two steps), `cleanup_all`, `ping_endpoint` and `create_endpoint`.
  - `check_quota_availability` is a function of the pool, the endpoint
    listing and whether the delete succeeded.
- `Predict` (predict.dfy): `predict_endpoint` as a method on the store.
  - The instance validation is a function with a loop method proved
    against it.
  - The endpoint lookup, the remote call and the base64 decoder are
    parameters.
- `DataUrl` (data_url.dfy):
  - `imageFileToDataURL`'s MIME choice, with `path.extname`;
  - the data-URL format;
  - `processDataUrl`, with its `split(',')` and lazy `/:(.*?);/`.
- `ImageFormat` (image_format.dfy): PNG/JPEG detection by magic number and
  the check `/^[A-Za-z0-9+/]+={0,2}$/`. The alphabet is that of section 4 of
  RFC 4648.
- `CleanupScript` (cleanup-endpoints.js):
  - parsing the `gcloud ai endpoints list` output;
  - `parseInt` and the comma-separated selection;
  - the delete loop;
  - the `main` dialogue.
- `Menu` (menu.dfy): moving About and Our Team before Contact, and
  rendering the list items.

Times are integer seconds passed in as parameters. Where the code departs
from what it evidently intends, the model follows the code:

- A request whose instances fail validation gets a 500 reply, not a 400.
  It is not released (see Findings).
- The fire-time check of `schedule_cleanup` does not look at `in_use`. It
  only compares `created_at` with the timeout.
- Module-level `delete_endpoint` keeps the entry when the teardown raises.
  `EndpointPool.delete_endpoint` removes it regardless.
- `predict_endpoint` does not mark an already-tracked endpoint in use, and
  never calls `get_available_endpoint`.
- The managed-endpoint branch of `check_quota_availability` raises before
  deleting anything, so it returns false. Line 181 reads `'created_at'`
  from a per-type table. Line 183 calls the two-argument `delete_endpoint`
  with one argument.
- `check_quota_availability` deletes the FIRST listed temporary endpoint
  older than an hour, not the oldest one.

## Model

| member | source | states |
|---|---|---|
| PoolTable.MostRecentFree | endpoints-on-demand/main.py:68-78 | None exactly when every entry is in use. Otherwise the first free entry whose created_at is not below any other free entry's. |
| PoolTable.Oldest | endpoints-on-demand/main.py:110-113 | The index of the first entry with the least created_at. |
| PoolTable.Put | endpoints-on-demand/main.py:101-105 | Assigning a key keeps keys distinct and stores the entry. A new key is appended at the end; an existing key is overwritten in its place, the order of the others unchanged. |
| PoolTable.PutKeepsOthers | endpoints-on-demand/main.py:101-105 | Assigning one key adds or drops no entry of any other key. |
| PoolTable.Remove | endpoints-on-demand/main.py:133 | `del` shrinks the table by one when the key is present. Afterwards the key is absent and the keys stay distinct. |
| PoolTable.RemoveKeepsOthers | endpoints-on-demand/main.py:133 | `del` keeps every entry of any other key and invents none. |
| PoolTable.EntryAfterRemove | endpoints-on-demand/main.py:120-133 | Removing one id leaves every other id's entry unchanged. |
| PoolTable.AcquireSpec | endpoints-on-demand/main.py:61-84 | Acquire returns None, with no change, iff all entries are in use. Otherwise it returns a free id with the latest created_at. It marks only that entry in use and keeps ids distinct. |
| PoolTable.NeverDoubleServe | endpoints-on-demand/main.py:68-82 | A second acquire never returns the id the first one handed out. With one free entry, the second acquire finds none. |
| PoolTable.ReleasedSpec | endpoints-on-demand/main.py:86-92 | Release is a no-op for an unknown id. Otherwise it sets that entry free and stamps it with the release time, and nothing else changes. |
| PoolTable.AddedSpec | endpoints-on-demand/main.py:95-118 | After add, the id maps to a new in-use entry and ids stay distinct. The only other entry that can go is the first oldest one: over capacity, not the new id, and free. |
| PoolTable.AddedKeepsDistinct | endpoints-on-demand/main.py:101-118 | Adding keeps at most one entry per id. |
| PoolTable.CapacityBound | endpoints-on-demand/main.py:107-118 | Adding a new id to a full table whose oldest entry is free evicts that entry. The table stays at MAX_ENDPOINTS_PER_TYPE. |
| PoolTable.ReuseAfterRelease | endpoints-on-demand/main.py:86-92 | An id released later than every other free entry's timestamp is the one the next acquire returns. |
| PoolTable.AddedOthersOlder | endpoints-on-demand/main.py:95-118 | Adding an id keeps ids distinct, tracks the id, and brings in no free entry of another id that was not already there. |
| PoolTable.AddReleaseAcquire | endpoints-on-demand/main.py:95-105 | After add(id) then release(id), the next acquire returns id. |
| PoolTable.SweptSpec | endpoints-on-demand/main.py:568-578 | The swept table keeps exactly the in-use entries. Kept plus removed is the table's size. |
| PoolTable.SweepProgress | endpoints-on-demand/main.py:572-578 | Each step of the cleanup loop deletes the visited entry iff it is free and counts it. Ids stay distinct. |
| Usage.PruneMembers | endpoints-on-demand/main.py:139 | Pruning keeps exactly the timestamps less than a day old. |
| Usage.PruneAppend | endpoints-on-demand/main.py:139 | Pruning distributes over concatenation, so appending then pruning keeps the order. |
| Usage.PruneIdempotent | endpoints-on-demand/main.py:139 | Pruning twice at the same time is pruning once. |
| Usage.PruneLater | endpoints-on-demand/main.py:139 | Pruning early and then later equals pruning later. |
| Usage.BucketsAreMonotone | endpoints-on-demand/main.py:144-152 | The timeout never shrinks as usage grows. 3 uses give the minimum, 10 the default and 25 the maximum. |
| Endpoints.EndpointStore.GetAvailableEndpoint | endpoints-on-demand/main.py:61-84 | An unknown type gets an empty table appended to the key order, and None. A known type is served by Acquire on its table. |
| Endpoints.EndpointStore.ReleaseEndpoint | endpoints-on-demand/main.py:86-93 | No change for an unknown type or id. Otherwise the table becomes Released at the given time. |
| Endpoints.EndpointStore.AddEndpoint | endpoints-on-demand/main.py:95-118 | The type's table, created empty if absent, becomes Added. A new type joins the key order, and the pool invariant holds. |
| Endpoints.EndpointStore.PoolDeleteEndpoint | endpoints-on-demand/main.py:120-133 | The entry is removed whether or not the teardown raised. |
| Endpoints.EndpointStore.DeleteEndpoint | endpoints-on-demand/main.py:289-307 | The entry is removed only when the teardown succeeded. Otherwise nothing changes. |
| Endpoints.EndpointStore.RecordUsage | endpoints-on-demand/main.py:385 | Appends now to the type's usage history and touches nothing else. |
| Endpoints.EndpointStore.CalculateAdaptiveTimeout | endpoints-on-demand/main.py:135-152 | Stores the pruned history. Fewer than 5 uses give 5 minutes, more than 20 give 20, else the default. |
| Endpoints.EndpointStore.ArmCleanup | endpoints-on-demand/main.py:271-275 | The timer's timeout in seconds is 60 times the bucket of the pruned usage count. |
| Endpoints.EndpointStore.FireCleanup | endpoints-on-demand/main.py:279-287 | Deletes through delete_endpoint exactly when the entry is still tracked and at least the timeout has passed since its created_at. |
| Endpoints.ReclaimRespectsLastRelease | endpoints-on-demand/main.py:282-287 | After a release at t0, a timer with timeout d reclaims iff it fires at or after t0 + d. |
| Endpoints.ReclaimIgnoresInUse | endpoints-on-demand/main.py:282-287 | The fire-time check gives the same answer whatever the entry's in_use flag is. |
| Endpoints.EndpointStore.CleanupAll | endpoints-on-demand/main.py:560-578 | The pool becomes SweepAll of the visited types. The count is the number of free entries removed. |
| Endpoints.EndpointStore.SweepType | endpoints-on-demand/main.py:570-578 | One type's table keeps its in-use entries. The count is the number of free entries. |
| Endpoints.SweepAllSpec | endpoints-on-demand/main.py:566-578 | Every model type stays. Visited types are swept and others are unchanged. |
| Endpoints.TotalFreeIsRemoved | endpoints-on-demand/main.py:563-578 | The reported count equals the number of entries removed. |
| Endpoints.PingReply | endpoints-on-demand/main.py:592-678 | 400 iff the type is unknown; 200 (ready) iff the endpoint has deployed models; 202 iff it has none; 404 iff the lookup raised. |
| Endpoints.EndpointStore.Ping | endpoints-on-demand/main.py:592-678 | The reply is PingReply. A known type records one use and the pool is untouched. |
| Endpoints.ClassifyDeployError | endpoints-on-demand/main.py:253-261 | A deploy error becomes quota-exceeded iff its lower-cased text contains "quota", "exceeded" or "limit"; otherwise it is re-raised, keeping its text. |
| Endpoints.ClassifyIgnoresCase | endpoints-on-demand/main.py:257-259 | The quota classification does not depend on letter case. |
| Endpoints.EndpointStore.CreateEndpoint | endpoints-on-demand/main.py:205-269 | Unknown type: error. An endpoint already serving: its id, pool unchanged. A failed create, a missing model or a failed deploy: the error, pool unchanged. Exactly when none of these happens the reply is the configured id, which is added to the pool; a new type joins the key order. |
| Endpoints.FirstOldTemp | endpoints-on-demand/main.py:187-195 | The first listed "-temp" endpoint older than an hour, or None when there is none. |
| Endpoints.CheckQuotaAvailability | endpoints-on-demand/main.py:161-203 | Deletes only with 8 or more listed endpoints, no managed type, and the first old temporary endpoint. It returns true only if that delete succeeded. With 8 or more listed, an empty pool, an age on every temporary endpoint and some old one, it does delete. A managed pool gives false with nothing deleted. |
| Predict.ChosenEndpointId | endpoints-on-demand/main.py:361 | The metadata endpointId when present and non-empty, else the configured one. |
| Predict.ProcessInstances | endpoints-on-demand/main.py:387-417 | The validation loop computes ValidateInstances. |
| Predict.ValidateItemsSpec | endpoints-on-demand/main.py:392-417 | Validation succeeds iff every instance passes. The contents are then the normalised contents in order; otherwise the error is the first failing instance's. |
| Predict.NormalizeContentSpec | endpoints-on-demand/main.py:401 | The normalised content has no line break, keeps every non-whitespace character in order, does not start or end with whitespace, and normalising again changes nothing. |
| Predict.PredictEndpoint | endpoints-on-demand/main.py:334-470 | A bad body or unknown type gives 400 with the state unchanged. A new type joins the key order. When the lookup of an untracked id raises: 500, an empty table for a new type, no use recorded. Otherwise one use is recorded and the endpoint admitted. A validation failure gives 500 and the endpoint stays as admitted. Otherwise the reply follows the remote call and the endpoint is released. |
| Predict.Admit | endpoints-on-demand/main.py:371-385 | The endpoint is admitted iff it was tracked or its lookup returned. Admitted: the pool is Admitted and one use is recorded. Not admitted: only an empty table for a new type, no use recorded. A new type joins the key order either way. |
| Predict.LookupFailedPool | endpoints-on-demand/main.py:371-374 | After a failed lookup the type has a table (empty if new), every other type keeps its table, and no other type appears. |
| Predict.AdmittedTracks | endpoints-on-demand/main.py:366-382 | After admission the chosen id is tracked. A new id is in use with the request's time, and a tracked one leaves the pool as it was. |
| Predict.RemoteCallReleases | endpoints-on-demand/main.py:444-452 | After the remote call, success or failure, the endpoint is tracked, free and stamped with the time the call ended. |
| Predict.ValidationFailureKeepsInUse | endpoints-on-demand/main.py:387-417 | A fresh endpoint whose request fails validation stays tracked and in use. |
| Predict.PredictEndpointReleasing | endpoints-on-demand/main.py:366-452 | The ladder with a release on the validation-failure path too. A failed lookup ends as in PredictEndpoint; every admitted request leaves its endpoint tracked and free. |
| Predict.RemoteReplySpec | endpoints-on-demand/main.py:427-461 | 200 iff the call returned a truthy first prediction; its lists default to empty. Anything else is a 500 naming the endpoint. |
| Text.Lower | cleanup-endpoints.js:116 | Same length, each character lower-cased. |
| Text.LowerIdempotent | cleanup-endpoints.js:140 | Lower-casing twice is lower-casing once. |
| Text.SplitOn | cleanup-endpoints.js:44 | One more piece than separators, and no piece holds the separator. |
| Text.SplitOnFirst | test_image_format.js:43 | Splitting after a separator-free prefix yields that prefix, then the split of the rest. |
| DataUrl.MimeTypeFor | test_image_format.js:26 | "image/png" iff the lower-cased extension is ".png"; "image/jpeg" otherwise. |
| DataUrl.ExtnameSpec | test_image_format.js:26 | The extension is empty, or a dot followed by no further dot and no slash, ending the path once trailing slashes are dropped. It is non-empty iff the base name is not ".." and has a dot after its first character. |
| DataUrl.BaseNameIsSuffix | test_image_format.js:26 | The base name is the trimmed path itself or the part after its last slash (and holds no slash, by BaseName's own contract). |
| DataUrl.ImageDataUrlRoundTrip | test_image_format.js:26-27 | processDataUrl of a generated data URL gives back the payload and the MIME type chosen from the path. |
| DataUrl.ProcessDataUrl | test_image_format.js:39-59 | Succeeds iff there is exactly one comma and the head has a usable ':' before a ';'; the result is the text after the comma and the match's group. Exactly a comma count other than one gives 'Invalid base64 data format', and exactly one comma with no match gives 'Could not determine image mime type'. |
| DataUrl.MimeMatchSpec | test_image_format.js:49 | The lazy match exists iff some ':' has a ';' later with no line terminator between. The group is the text up to the first ';' after the first such ':'. |
| DataUrl.ProcessDataUrlRoundTrip | test_image_format.js:39-59 | For any MIME type without ',', ';' or line terminators and any payload without ',', processing "data:mime;base64,payload" gives them back. |
| ImageFormat.DetectFormat | image_format_check.js:29-34 | PNG iff the buffer starts with the PNG signature. JPEG iff it does not but starts with FF D8. |
| ImageFormat.FormatIsPrefixOnly | image_format_check.js:29-34 | Buffers agreeing on their first four bytes get the same format. |
| ImageFormat.ValidBase64MatchesRegex | image_format_check.js:71-72 | The scan accepts exactly the strings the regular expression matches. |
| ImageFormat.RejectsForeignChar | image_format_check.js:71-72 | Any character outside the alphabet and not '=' makes the check fail. |
| ImageFormat.RejectsThreePads | image_format_check.js:71-72 | Three trailing '=' make the check fail. |
| Menu.ReorderItems | reorder_menu.py:23-42 | The loop computes Reordered. |
| Menu.OthersSpec | reorder_menu.py:28-36 | The plain list holds exactly the items whose href is not about, our_team or contact. |
| Menu.LastWithSpec | reorder_menu.py:28-34 | None iff no item has the href. Otherwise the last item with it. |
| Menu.ReorderedShape | reorder_menu.py:38-42 | With a Contact item, the plain items are followed by About, Our Team and Contact (last occurrences, possibly None). Without one, About and Our Team are dropped. |
| Menu.MenuLines | reorder_menu.py:45-47 | The loop computes Render. |
| Menu.RenderSpec | reorder_menu.py:45-47 | Rendering fails iff some slot is None. Otherwise there is one line per item. |
| Menu.MissingAboutFails | reorder_menu.py:39-47 | A menu with Contact but no About cannot be rendered. |
| CleanupScript.SplitWs | cleanup-endpoints.js:49 | At least one piece, and no piece holds whitespace. |
| CleanupScript.SplitWsCount | cleanup-endpoints.js:49-50 | Two or more pieces iff the line has whitespace. |
| CleanupScript.ListEndpoints | cleanup-endpoints.js:32-63 | Failed command: no endpoints. Otherwise the rows of the non-blank lines after the header. |
| CleanupScript.RowOfSpec | cleanup-endpoints.js:49-55 | A line gives a row iff it holds whitespace, and the row's id is the text before the first whitespace. |
| CleanupScript.RowsOfSpec | cleanup-endpoints.js:48-56 | Every row is the row of some listed line. |
| CleanupScript.ListingBound | cleanup-endpoints.js:44-56 | At most one row per non-blank data line, and the header is skipped. |
| CleanupScript.ParseIntOfNumeral | cleanup-endpoints.js:143 | A decimal numeral parses to its value. |
| CleanupScript.IndexesOfMembers | cleanup-endpoints.js:143-144 | An index is selected iff it is in range and its number plus one was typed. |
| CleanupScript.SelectAll | cleanup-endpoints.js:140-141 | "all", in any case, selects every endpoint in order. |
| CleanupScript.DeleteEach | cleanup-endpoints.js:116-124 | Tries every target's id in order. The count is Successes. |
| CleanupScript.AllSucceeded | cleanup-endpoints.js:68-86 | The count equals the attempts iff every delete succeeded. |
| CleanupScript.CleanupSpec | cleanup-endpoints.js:91-176 | No listing means nothing deleted. A deletion needs option 1 or 2 and "y". Option 1 deletes all in order; option 2 exactly the valid chosen ones or reports none. Count ≤ attempts, equal iff all succeeded. |
| CleanupScript.RunMain | cleanup-endpoints.js:91-183 | The dialogue's outcome is Cleanup of the parsed listing and the answers. |

## Left out

- HTTP, Flask and JSON: request bodies are already-parsed values. The model does not cover a body that is not a dict, nor the JSON reply bodies beyond status and key fields.
- Vertex AI calls (the `aiplatform.Endpoint` lookup in `predict_endpoint` and `ping_endpoint`, the `aiplatform.Model` lookup, create, deploy, predict, list, delete, undeploy) are parameters: whether each returned or raised, and what it returned, is given as an argument.
- `aiplatform.init` failures are not modelled.
- Threads: the `schedule_cleanup` thread and `time.sleep` are left out, and so is the background deploy in `ping_endpoint`. Arming and firing are two separate calls; the interleaving of concurrent requests is not modelled.
- Time is an integer number of seconds passed in; `time.time()` returns a float.
- `base64.b64decode` is the `decodedLength` parameter, which gives None when decoding raises.
- `parameters` and `metadata` are not modelled beyond `endpointId`; `parameters` is passed straight through to the remote call.
- `authenticate`, `get_prediction`, `/health` and `/quota-check` are not modelled, because the request ladder does not call them.
- File I/O, the menu's regular-expression extraction and the console dialogue (`readline`, `console.log`) are left out; the answers are parameters.
- The 500 ms pauses between deletes are not modelled.
- CleanupScript.ParseIntJs: numbers are unbounded, so the model does not round values above 2^53 the way a JavaScript number does.
- Text.Lower: lower-cases ASCII letters only, unlike JavaScript's `toLowerCase` and Python's `str.lower`, which follow Unicode. For the keywords "quota", "exceeded" and "limit" that ClassifyDeployError looks for the verdict is the same, since the only non-ASCII characters whose lower case holds an ASCII letter are U+212A KELVIN SIGN, which lowers to "k", a letter none of the keywords has, and U+0130, which lowers to "i" followed by a combining dot that breaks the match.
- Endpoints.EndpointStore.CreateEndpoint: the endpoint object is a handle derived from its id.
- ImageFormat.DetectFormat: the file is given as its bytes.

## Findings

| source | as written | input that shows it | evidently intended | confidence | as-written member | corrected member |
|---|---|---|---|---|---|---|
| endpoints-on-demand/main.py:387-452 | Instances are validated after the endpoint is added in use (line 379) but before the `try` whose paths release it (lines 445, 451). A validation error escapes to the outer handler, and the endpoint is never released. | POST `/predict/hepatic` with `{"instances": []}` on an empty pool: the hepatic endpoint is added with `in_use` true and stays so. | Every request that got past admission releases its endpoint. | not executed | Predict.ValidationFailureKeepsInUse | Predict.PredictEndpointReleasing |
