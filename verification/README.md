# Deployment-client decision cores in Dafny

This project models three pieces of the serverless deployment client and proves their properties:

- **Asset reconciliation and upload** (`src/api/assets.ts`, module `Assets` in `assets.dfy`).
  - `getOrCreateAssetResources` lists the service's assets.
  - It reuses the sid of the first listed asset whose friendly name equals a desired asset's name.
  - It sends one creation request for every other asset.
  - It returns the matched assets followed by the created ones.
  - `createAssetVersion` refuses `protected` assets before any request. It then posts one multipart form whose content type is resolved from `filePath || name`.
  - `uploadAsset` returns the new version's sid.
- **Environment-variable synchronisation** (`src/api/variables.ts`, module `Variables` in `variables.dfy`).
  - `convertToVariableArray` keeps the string- and number-valued entries and renders each one as a string.
  - `setEnvironmentVariables` looks up the first listed variable with the same key. No such variable gives a create request. A different value gives an update addressed to that variable's sid. An identical value gives no request.
  - Every failure reaches the caller unchanged.
- **Log tail stream** (`src/streams/logs.ts`, class `Logs.LogStream` in `logs.dfy`).
  - The stream keeps the set of sids it has seen.
  - A poll pushes, in page order, the records whose sid was unseen before the poll, and marks their sids seen.
  - A failed poll destroys the stream with the error.
  - `_read` starts the polling timer once. `_destroy` clears it.

Shared definitions:

- `wrappers.dfy` holds `Option` and `Result`.
- `subsequences.dfy` holds the order-preservation predicate `SubsequenceOf`: `xs` is obtained from `ys` by deleting elements.

Remote calls are function parameters. Each parameter gives the service's answer to one request, and a proof about the model holds for every such answer:

| remote call | parameter |
|---|---|
| asset creation | `create: Creator`, i.e. `(nat, string) -> Option<Sid>`, answering creation request number `k` of one run, which sends a name |
| version upload | `post: UploadForm -> Option<VersionResource>` |
| variable create/update | `respond: Action -> Reply` |

The listings are `Result` parameters: the settled value of `listAssetResources`, `listVariablesForEnvironment` or `listOnePageLogResources`. The content-type resolver is the parameter `getContentType`. JavaScript's rendering of a number is the parameter `numText`.

`Promise.all` is modelled as a pass in list order. Every request of the fan-out is recorded. The reported error is the first failure in list order.

Three facts about the log stream, as `src/streams/logs.ts` implements it:

- the seen-set accumulates over the whole life of the stream; it is never replaced by the last page's sids;
- records are pushed in page order, not in reverse;
- there is no one-shot mode: `LogStream` has no `tail` flag and never ends the sequence by itself.

## Model

| member | source | states |
|---|---|---|
| Assets.Message | src/api/assets.ts:41-44 | a listing error reaches the caller unchanged; a creation failure is worded `Failed to create "…`, a protected asset `Asset …`; among the other kinds, `Failed to upload Asset` is the upload failure and nothing else |
| Assets.CreateFailedMessageNamesAsset | src/api/assets.ts:41-44 | the creation error message `Failed to create "<name>" asset` identifies the asset: equal messages imply equal names |
| Assets.FindExisting | src/api/assets.ts:86-88 | `find` by exact friendly name: `None` exactly when no listed asset has the name, otherwise the sid of the first listed asset that has it |
| Assets.SplitByExisting | src/api/assets.ts:81-97 | the `forEach` loop fills `output` with the matched assets (each with its sid) and `assetsToCreate` with the rest, as the `Matched`/`Unmatched` specification |
| Assets.CreateAssetResource | src/api/assets.ts:28-45 | a creation request succeeds exactly when the service answers it, with the answered sid; a failed request becomes the error `CreateFailed` naming the asset |
| Assets.CreateAssetResources | src/api/assets.ts:99-111 | one creation request per asset to create, in order; the joined outcome equals the specification `CreateAll` |
| Assets.GetOrCreateAssetResources | src/api/assets.ts:76-114 | a failed listing is passed on unchanged and sends no creation request; otherwise the result is `Reconcile` (matched followed by created) and the requests are exactly the names of the unmatched assets |
| Assets.CreateAllSucceeds | src/api/assets.ts:99-111 | when every creation succeeds, the join succeeds |
| Assets.CreateAllSuccess | src/api/assets.ts:99-111 | a successful join lists the created assets with their fields unchanged and in order, each carrying the sid its own request was answered with |
| Assets.CreateAllFirstFailure | src/api/assets.ts:99-111 | a failed join reports `Failed to create "<name>" asset` for the first request that failed; every earlier request succeeded |
| Assets.MatchedFacts | src/api/assets.ts:86-96 | every matched asset carries the sid of the first listed asset with its name, and the matched group keeps the input order |
| Assets.UnmatchedFacts | src/api/assets.ts:85-91 | an asset is to be created exactly when it is an input asset with no listed namesake; the group keeps the input order |
| Assets.Partition | src/api/assets.ts:85-97 | matched and unmatched assets together are the input, as a multiset |
| Assets.ReconcileCoversEachAssetOnce | src/api/assets.ts:85-113 | on success every input asset appears exactly once in the result, with its fields unchanged |
| Assets.ReconcileMatchedGroup | src/api/assets.ts:92-113 | the result starts with the matched group, in input order, each carrying its first namesake's sid |
| Assets.ReconcileCreatedGroup | src/api/assets.ts:99-113 | the results after the matched group are exactly the unmatched assets, in input order, each with no listed namesake; the `k`-th of them carries the sid answered to creation request `k` |
| Assets.CreationCallsExactlyUnmatched | src/api/assets.ts:89-105 | a name with no listed namesake is sent to creation exactly as many times as it occurs among the inputs; a listed name is never sent |
| Assets.CreationCallsCount | src/api/assets.ts:89-105 | per name: the creation requests for it number its occurrences among the inputs when it is unlisted, and zero when it is listed |
| Assets.ReconcileWithAllExisting | src/api/assets.ts:85-97 | when every input name is listed, nothing is created, no request is sent and the result is the matched list |
| Assets.ReconcileTwiceCreatesNothing | src/api/assets.ts:76-114 | idempotence: after a successful run, a second run against a listing that includes the created assets sends no creation request |
| Assets.ReconcileFailure | src/api/assets.ts:99-111 | the call fails exactly when some creation request for an unlisted asset fails; the error names the asset of the first failed request, and every earlier request succeeded |
| Assets.SameNameCreatedTwice | src/api/assets.ts:85-111 | two desired assets with the same unlisted name send two creation requests and are returned with the two sids answered |
| Assets.TwoAssetsOneExisting | src/api/assets.ts:76-114 | with `a.js` listed as `ZA1` and creation request 0 answered with `ZB1`, desired `a.js` and `b.js` send one creation request, for `b.js`, and return both assets with their sids |
| Assets.ContentTypeSource | src/api/assets.ts:136 | `filePath \|\| name`: a non-empty file path is used, otherwise the name; an empty file path is never used when the name is not empty |
| Assets.CreateAssetVersion | src/api/assets.ts:124-165 | a protected asset fails with the protected-access error and sends nothing; otherwise exactly one form with the asset's sid, path, access, content and name is posted; its content type comes from a non-empty `filePath`, else from the name; the outcome is the parsed version, or `Failed to upload Asset` |
| Assets.UploadAsset | src/api/assets.ts:176-183 | sends the same requests as `createAssetVersion`, returns the version's sid on success and passes on its error otherwise |
| Variables.ConvertToVariableArray | src/api/variables.ts:119-130 | the `forEach` loop builds exactly the specification `Converted`: one rendered pair per string- or number-valued key, in key order |
| Variables.ConvertedContents | src/api/variables.ts:122-127 | a pair is in the output exactly when some entry with a string or number value renders to it |
| Variables.ConvertedKeepsKeyOrder | src/api/variables.ts:122-127 | the output keys are input keys, in key order |
| Variables.ConvertedDistinctKeys | src/api/variables.ts:122-127 | distinct object keys give distinct output keys |
| Variables.FindVariable | src/api/variables.ts:156-158 | `find` by key: `None` exactly when no listed variable has the key, otherwise the first listed variable that has it |
| Variables.Decide | src/api/variables.ts:155-181 | create with the desired key and value exactly when no listed variable has the key; no request when the first namesake holds the desired value; otherwise an update with the desired value addressed to the first namesake's sid |
| Variables.Plan | src/api/variables.ts:155-181 | one decision per desired variable, in order, each for that variable's key and, when it sends a request, carrying its value |
| Variables.Calls | src/api/variables.ts:155-183 | the requests sent are never "no request" decisions and number at most the decisions |
| Variables.CallsFacts | src/api/variables.ts:155-183 | the requests sent are the decisions other than "no request", in order, at most one per decision |
| Variables.NoCallsWhenAllKept | src/api/variables.ts:169-171 | when every decision is "no request", nothing is sent |
| Variables.SyncRequests | src/api/variables.ts:155-183 | at most one request per desired variable; every request is a create or an update carrying a desired key and value; an update is addressed to a listed variable with that key; there is no delete |
| Variables.CallsCount | src/api/variables.ts:155-183 | a decision occurs among the requests as often as in the plan, unless it is "no request" |
| Variables.PlanCount | src/api/variables.ts:155-181 | with distinct desired keys, the decision for each desired variable occurs exactly once in the plan |
| Variables.CallsPerVariable | src/api/variables.ts:155-183 | with distinct desired keys, each desired variable that needs a change gets exactly one request, and one already in sync gets none |
| Variables.UntouchedVariable | src/api/variables.ts:155-183 | a listed variable whose key is not desired is never addressed by an update |
| Variables.AlreadySyncedSendsNothing | src/api/variables.ts:159-171 | when the first namesake of every desired variable already holds its value, no request is sent |
| Variables.SyncedValue | src/api/variables.ts:155-181 | once the requests of a sync have taken effect, each desired key's first namesake holds the desired value |
| Variables.SecondSyncSendsNothing | src/api/variables.ts:142-184 | convergence: a second sync after the first one's requests have taken effect sends no request |
| Variables.FirstRejection | src/api/variables.ts:183 | the join resolves exactly when every request resolves; otherwise it rejects with the cause of the first rejected request |
| Variables.SetEnvironmentVariables | src/api/variables.ts:142-184 | a listing error is re-thrown unchanged with no request sent; otherwise the requests are those decided for the converted variables; the sync fails exactly when some request is rejected, with that request's cause unchanged |
| Logs.NewRecords | src/streams/logs.ts:33-34 | the filter keeps no more records than the page holds, and none whose sid was seen before the poll |
| Logs.NewRecordsCount | src/streams/logs.ts:33-34 | a record is kept as many times as the page holds it when its sid was unseen, and never otherwise |
| Logs.NewRecordsOrder | src/streams/logs.ts:33-34 | the kept records are in page order |
| Logs.NewRecordsFacts | src/streams/logs.ts:33-34 | the filter keeps exactly the page records whose sid was not seen before the poll, each as often as the page holds it, in page order |
| Logs.NewRecordsSids | src/streams/logs.ts:33-36 | marking the pushed sids seen has the same effect as marking the whole page seen, and the pushed sids were unseen |
| Logs.RepeatedSidInOnePage | src/streams/logs.ts:33-38 | two records of one page that share an unseen sid are both pushed, and a repeated record is pushed at least twice, because the filter runs before the adds |
| Logs.LogStream.constructor | src/streams/logs.ts:14-24 | a new stream has an empty seen-set, no timer, an empty buffer, nothing pushed and a polling period of 1000 ms |
| Logs.LogStream.Poll | src/streams/logs.ts:26-42 | on a page, pushes the unseen records in page order, adds every page sid to the seen-set and never pushes a sid pushed before; on a failure, pushes nothing, leaves the seen-set unchanged and destroys the stream with the error |
| Logs.LogStream.PushAll | src/streams/logs.ts:35-38 | the `forEach` adds the sid of every record to the seen-set and pushes every record, in order; nothing else changes |
| Logs.LogStream.Read | src/streams/logs.ts:44-50 | starts a timer only when none is active; an active timer is left unchanged |
| Logs.LogStream.DestroyHook | src/streams/logs.ts:52-57 | clears the timer; with no timer nothing changes |
| Logs.LogStream.Destroy | src/streams/logs.ts:39-41 | the first `destroy(err)` marks the stream destroyed with the error and clears the timer; later calls change nothing |
| Logs.FirstPageAllNew | src/streams/logs.ts:33-38 | on a fresh stream, a page `[a, b, c]` of distinct sids is pushed whole |
| Logs.SecondPageOnlyLast | src/streams/logs.ts:33-38 | after `[a, b, c]` was seen, the page `[b, c, d]` pushes only `d` |
| Logs.OverlappingPolls | src/streams/logs.ts:26-42 | two polls of a stream over `[a, b, c]` then `[b, c, d]` push `a, b, c` and then only `d` |

## Left out

- HTTP transport is left out: URLs, the upload base URL, `FormData` encoding and `JSON.parse` of responses. Each request is a value passed to a response parameter; a failed request and an unparsable body are both the parameter's failure answer.
- `listAssetResources`, `listVariablesForEnvironment`, `getPaginatedResource` and `listOnePageLogResources` are left out as operations. Their settled result is a `Result` parameter.
- `getContentType` (src/utils/content-type) is not part of this model. It is the parameter `getContentType` of `Assets.CreateAssetVersion`.
- JavaScript number-to-string rendering is left out. It is the parameter `numText`.
- A number in the environment object is a `real` (`EnvValue.Num`), so `NaN`, `Infinity` and `-Infinity` are not modelled. JavaScript renders them as `NaN`, `Infinity` and `-Infinity`.
- Values of the environment object that are neither strings nor numbers are one constructor, `Other`, because the conversion treats them all alike.
- `Variables.FirstRejection`: does not model the `Promise.all` race. The model reports the first rejection in list order, while at run time the first rejection in time wins. Every request is issued either way.
- `Assets.CreateAll`: same as above: the first failing creation in list order stands for the first one in time.
- `Assets.CreateAllFirstFailure`: states the first failure in list order, not the first in time, for the same reason.
- `Assets.ReconcileFailure`: names the first failed request in list order, for the same reason.
- Timer timing is left out. `setInterval` and `clearInterval` become the field `interval`. The repeated `_poll` calls a running timer makes are calls of `LogStream.Poll`.
- Readable-stream backpressure and `JSON.stringify` of log records are left out. A pushed record is appended to `emitted` as a record.
- `Logs.LogStream.Poll`: does not model that a push after destruction is discarded by the readable side. A poll on a destroyed stream still records its records in `emitted`.
- `debug` logging and `ClientApiError` construction are left out, because they only produce diagnostics.
- `Variables.UntouchedVariable`: assumes the listed variables have distinct sids. With a shared sid, an update meant for another key could address the same sid.
- `Variables.SyncedValue`: assumes distinct desired keys and distinct listed sids. It also assumes the service appends created variables to the listing.
- `Variables.SecondSyncSendsNothing`: assumes the service gives every variable its own sid and appends created variables to the listing. The sids of created variables come from an arbitrary function of the key.
- Asset uploads through a pre-signed URL in two steps are left out. `createAssetVersion` only posts the content inline.
- The `tail`, `limit` and `filterByFunction` settings of `src/types/logs.ts` are left out, because `LogStream` does not read them.
- The client construction (`createGotClient`) and its tests are left out.
