# carina node controllers, modelled in Dafny

This project models three controllers of carina, a local-disk CSI storage
system for Kubernetes.

- **Pod controller** (`controllers/pod_controller.go`, module `Throttle`).
  It keeps the host's block-I/O throttle files (`blkio.throttle.read_bps_device` and the
  three others under `/sys/fs/cgroup/blkio/`) in line with the
  `kubernetes.customized/<file>` annotations of the pods that this node runs
  for carina's scheduler. Two passes do this:
  - a single-pod pass on every admitted create or update event;
  - a periodic full pass over all the node's pods, which first reads the host files.

  Each pod volume is resolved to a `major:minor` device key through the
  `pvIndex` field index. The pass builds the wanted limits per file, drops the
  writes that would not change anything, and writes the rest.
- **Node controller** (`controllers/node_controller.go`, module `Rebuild`).
  It periodically rebuilds LogicVolumes. Each LogicVolume is classified against
  the node list, the PersistentVolume list and a negative cache:
  - an owned volume is skipped;
  - an orphan carrying carina's finalizer is deleted and then has the finalizer stripped;
  - a volume that needs nothing is skipped;
  - a rebuild candidate carrying the finalizer has it stripped.

  Then the claim of each candidate is fetched, deleted and recreated from its
  request, with up to twelve create attempts.
- **PersistentVolume controller** (`controllers/persistentvolume_controller.go`,
  module `Capacity`). It debounces reconciles to one per fifteen seconds and
  summarizes each node's device capacity and allocatable quantities into a
  string record. It compares the records with an in-memory cache and writes them
  as JSON into the `carina-node-storage` ConfigMap when they changed.

Shared pieces:
- `Base` holds the Kubernetes objects the controllers read (nodes,
  PersistentVolumes), the fetch and list outcomes, and the configuration
  constants as a `Settings` value.
- `Assoc` is the "later assignment wins" map that Go loops build.
- `Text` covers `strings.TrimSpace`, `strings.Split` and `fmt.Sprintf("%d")`, each with its inverse.

The cluster client, the clock and the shell become inputs and outputs:
- listings and fetches are `Listing`/`Fetch` values;
- the mutations the API server rejects are a set `rejects`;
- the outcome of each create attempt is a sequence of booleans;
- Go's map iteration order is an explicit `order` parameter;
- every call the controller issues is recorded in a sequence of `Call`s or `Command`s.

## Model

| member | source | states |
|---|---|---|
| `Throttle.FilterSelects` | controllers/pod_controller.go:263-287 | Every listed pod whose create or update event passes the filter is one the full pass selects by `combinedIndex`. The converse holds when neither scheduler name contains a hyphen. |
| `Throttle.IndexKeyInjective` | controllers/pod_controller.go:100 | A `<scheduler>-<node>` key determines both parts when neither scheduler name contains a hyphen. |
| `Throttle.SelectsForeignPod` | controllers/pod_controller.go:210 | Without that proviso the converse fails. The full pass over node `b-c` of scheduler `a` selects a pod of scheduler `a-b` on node `c`, which the event filter rejects. |
| `Throttle.PvIndex` | controllers/pod_controller.go:108-125 | The `pvIndex` index yields at most one key. It yields one exactly for a plugin-driven volume bound to a claim, and that key is `<claim namespace>-<claim name>`. |
| `Throttle.Matching` | controllers/pod_controller.go:222-223 | A `pvIndex` lookup returns exactly the volumes of the cluster whose index key is the one asked for. How many times each comes back is stated by `Throttle.MatchingCounts`. |
| `Throttle.MatchingCounts` | controllers/pod_controller.go:222-223 | The lookup returns each volume with the key as many times as the cluster lists it, and no other volume. |
| `Throttle.MatchingEmpty` | controllers/pod_controller.go:222-223 | The lookup comes back empty exactly when no volume carries the key. |
| `Throttle.MatchingOne` | controllers/pod_controller.go:228-231 | When the cluster lists each volume once, the lookup passes the `len(pvList.Items) != 1` test exactly when a single volume carries the key. |
| `Throttle.ResolveDevice` | controllers/pod_controller.go:219-238 | A volume resolves to a device exactly when it has a claim, the lookup succeeds and returns exactly one volume. The device is that volume's `major:minor` attribute pair, and the volume is plugin-driven and bound to a claim with the same index key. |
| `Throttle.ResolvesSoleMatch` | controllers/pod_controller.go:219-238 | When the cluster lists each volume once and a single volume carries the claim's key, a claimed volume whose lookup succeeds resolves to that volume's `major:minor` pair. |
| `Throttle.ForeignClaimResolves` | controllers/pod_controller.go:173-189 | The index key is not injective. Claim `b-c` in namespace `a` resolves through the volume bound to claim `c` of namespace `a-b`. |
| `Throttle.PodDevices` | controllers/pod_controller.go:168-189 | A device belongs to a pod exactly when one of its volumes resolves to it. |
| `Throttle.SinglePodPlan` | controllers/pod_controller.go:154-200 | The single-pod pass covers the four throttle files in order and reads nothing from the host. Each file wants exactly the pod's devices, each at the pod's annotation value or "0" without one. |
| `Throttle.SinglePodWrites` | controllers/pod_controller.go:191-202 | The single-pod pass writes a command exactly when it names a throttle file, a device of the pod, and the pod's requested value for that file. |
| `Throttle.PodTouchesMembers` | controllers/pod_controller.go:218-238 | One pod yields a (pod, device) pair exactly for each of its resolved devices, with the pod's annotations. |
| `Throttle.TouchesMembers` | controllers/pod_controller.go:217-238 | The full pass meets a (pod, device) pair exactly when the pod is listed and the device is one of the pod's devices. |
| `Throttle.TouchesConcat` | controllers/pod_controller.go:217 | Pods are visited in list order: the pairs of a list `a + b` are all those of `a` followed by all those of `b`. |
| `Throttle.TouchesCons` | controllers/pod_controller.go:217-218 | A pod at the head of the list has its pairs visited before all others. |
| `Throttle.TouchesOne` | controllers/pod_controller.go:218-238 | A one-pod list yields exactly that pod's pairs, in volume order. |
| `Throttle.ResyncDesiredKeys` | controllers/pod_controller.go:240-250 | The full pass wants a limit on a device exactly when some visited pod of that device has the annotation, or the host file already lists the device. |
| `Throttle.ResyncDesiredValue` | controllers/pod_controller.go:240-250 | The limit wanted on a device is the one assigned by the last visit that assigns it (visits follow pod-list order, `Throttle.TouchesConcat`): the pod's annotation, or "0" for a listed device. |
| `Throttle.ResyncSkipsUnusedDevices` | controllers/pod_controller.go:240-250 | A full pass never writes a device that no pod selected by the node's index key uses, even when the host file limits it. |
| `Throttle.ParseLinesLastWins` | controllers/pod_controller.go:313-322 | A parsed throttle file maps a device to a value exactly when the file's last line for that device carries that value. |
| `Throttle.ParseLineOfEntry` | controllers/pod_controller.go:318-321 | A line in the kernel's `<device> <value>` format parses back to its device and value. |
| `Throttle.Opened` | controllers/pod_controller.go:299-312 | The kinds read are exactly the kinds whose file opened, and none is read twice. |
| `Throttle.ReadHost` | controllers/pod_controller.go:296-326 | Reading the host yields one entry per opened file. Each entry holds that file's parsed limits and no wanted limit. A file that failed to open is left out. |
| `Throttle.SelectByIndex` | controllers/pod_controller.go:100-103 | A `combinedIndex` lookup returns exactly the pods whose `<scheduler>-<node>` key is the one asked for. |
| `Throttle.PlanKinds` | controllers/pod_controller.go:215-250 | Filling the wanted limits into the host entries keeps exactly one entry per opened file, each of a different kind. |
| `Throttle.PlanLimits` | controllers/pod_controller.go:215-250 | Each entry keeps its file's parsed limits, and its wanted limits are those the visits assign on its kind. |
| `Throttle.ResyncPlan` | controllers/pod_controller.go:206-256 | A full pass stops before reading the host exactly when the pod list fails. It panics exactly when a host line has no second field. Otherwise it plans exactly one entry per opened file, and none for a file that did not open. Each entry holds the file's parsed limits and the limits the selected pods want on it. |
| `Throttle.AssignKept` | controllers/pod_controller.go:240-250 | A device a visited pod assigns on a file is wanted on that file by the full pass. |
| `Throttle.Pending` | controllers/pod_controller.go:336-342 | The writes kept are the wanted entries, with their wanted values, minus those the host already holds with the same value. |
| `Throttle.KindCommandsSpec` | controllers/pod_controller.go:343-348 | One file issues a command exactly when the command names its path and a wanted device at its wanted value that the host does not already hold. |
| `Throttle.PlanCommandsSpec` | controllers/pod_controller.go:332-349 | A pass issues a command exactly when one of its files wants it and the host does not already hold it. |
| `Throttle.WriteKind` | controllers/pod_controller.go:343-348 | The write loop of one file issues every pending write exactly once and nothing else. It records a failed write and carries on. |
| `Throttle.WriteAll` | controllers/pod_controller.go:332-350 | Writing a pass issues every pending write of every file exactly once and nothing else. A failed write stops nothing. |
| `Throttle.ShellSplitsValue` | controllers/pod_controller.go:344 | The annotation value goes into the `bash -c` line unquoted, so a value of several space-separated words reaches the shell as those separate words. |
| `Throttle.ShellWords` | controllers/pod_controller.go:344 | A write whose device, value and path contain no space reaches the shell as exactly `echo`, the device, the value, `>` and the path. |
| `Throttle.KindPathsDistinct` | controllers/pod_controller.go:41-45 | The four throttle kinds live in four different files. |
| `Throttle.Effect` | controllers/pod_controller.go:328-331 | After the writes, a device written "0" has no limit, a device written another value holds it, and an unwritten device keeps its limit. |
| `Throttle.SuppressionKeepsEffect` | controllers/pod_controller.go:336-342 | When the host file lists no "0" limit, dropping the writes that repeat the host's value leaves the host as writing everything would. |
| `Throttle.PollConfigures` | controllers/pod_controller.go:78-87 | The wait configures the pod exactly when it is running, or when every remaining re-fetch fails. It never fails. |
| `Throttle.ReconcilePodSpec` | controllers/pod_controller.go:61-94 | A reconcile runs the single-pod pass on a fetched, undeleted pod exactly when the pod is running or all five re-fetches fail. A fetch error is the only failure. |
| `Rebuild.NodeHealthSpec` | controllers/node_controller.go:130-137 | A node name has a status exactly when a listed node has it. The status is that of the last node listed under the name: abnormal when the node is deleting or terminated, else normal. |
| `Rebuild.PvNames` | controllers/node_controller.go:242-253 | The PersistentVolume map holds exactly the listed volumes' names. |
| `Rebuild.Judge` | controllers/node_controller.go:145-180 | A LogicVolume is owned exactly when it has owner references. It is an orphan only with a status and no PersistentVolume. A `Success` volume with a PersistentVolume needs nothing exactly when it is in the negative cache or its node is normal. A volume without status is a candidate. A volume without owners, with a status and without a PersistentVolume is exactly an orphan, so never a candidate. |
| `Rebuild.RemoveString` | controllers/node_controller.go:159-160 | Removing a finalizer keeps every other entry and no occurrence of it. It leaves a list without it unchanged. |
| `Rebuild.RemoveStringCounts` | controllers/node_controller.go:159-160 | Removing drops every copy of the finalizer and keeps every other entry as often as it occurs. |
| `Rebuild.RemoveStringKeepsOrder` | controllers/node_controller.go:159-160 | Removing gives the other entries in their original order, as an independent back-to-front filter does. |
| `Rebuild.StripFinalizer` | controllers/node_controller.go:181-184 | The patched copy lacks the LogicVolume finalizer, keeps every other finalizer and differs from the original in nothing else. |
| `Rebuild.StripKeepsOthers` | controllers/node_controller.go:181-184 | The patched copy keeps every other finalizer in order and with its repetitions, and drops every copy of the LogicVolume finalizer. |
| `Rebuild.StripIdempotent` | controllers/node_controller.go:182-183 | Stripping the finalizer twice is stripping it once. |
| `Rebuild.Scan` | controllers/node_controller.go:145-191 | The scan issues only LogicVolume deletes and patches. |
| `Rebuild.GetNeedRebuild` | controllers/node_controller.go:110-129 | Every pass starts by listing the LogicVolumes. |
| `Rebuild.EmptyListStops` | controllers/node_controller.go:119-121 | An empty LogicVolume list ends the scan with no candidate and without listing nodes or volumes. |
| `Rebuild.VisitStopsAtRejection` | controllers/node_controller.go:153-189 | One LogicVolume's calls fail exactly when the last of them was rejected, and no earlier one was. |
| `Rebuild.ScanStopsAtRejection` | controllers/node_controller.go:145-191 | The scan fails exactly when its last call was rejected, and no earlier call was. |
| `Rebuild.ListFailureBeforeMutation` | controllers/node_controller.go:114-143 | The pass fails having issued only list calls exactly when the LogicVolume list fails, or the list is non-empty and the node or volume list fails. |
| `Rebuild.ScanMutations` | controllers/node_controller.go:150-189 | Every delete is of a listed orphan carrying the finalizer. Every patch strips the finalizer from a listed orphan or candidate carrying it. |
| `Rebuild.ScanCoversFinalizers` | controllers/node_controller.go:150-189 | A successful scan deleted and patched every orphan carrying the finalizer, and patched every candidate carrying it. |
| `Rebuild.PatchFollowsAppend` | controllers/node_controller.go:145-191 | Appending the calls of a later LogicVolume keeps every delete followed by its patch, when the earlier calls did not fail. |
| `Rebuild.DeleteThenPatch` | controllers/node_controller.go:153-165 | An orphan's delete is followed at once by its patch, unless the delete failed and ended the scan. |
| `Rebuild.ScanPicks` | controllers/node_controller.go:180 | The candidate map of a successful scan maps exactly the candidates' names, each to the claim of the last candidate listed under that name. |
| `Rebuild.CleanClaim` | controllers/node_controller.go:205-219 | The recreated claim is named after the LogicVolume's claim key. It carries the fetched claim's six request fields and no metadata, bound volume or status. |
| `Rebuild.CleanClaimDependsOnlyOnRequest` | controllers/node_controller.go:210-217 | Two fetched claims give the same recreated claim exactly when their requests agree. |
| `Rebuild.CleanClaimIdempotent` | controllers/node_controller.go:205-219 | Recreating from a recreated claim gives the same claim. |
| `Rebuild.UntilMaxRetry` | controllers/node_controller.go:227-229 | The create is attempted until it succeeds, at most twelve times. It succeeds exactly when one of the first twelve attempts does, and then the last attempt made is the first success. |
| `Rebuild.RebuildFrom` | controllers/node_controller.go:194-240 | The rebuild loop only adds to the negative cache, and only names of candidates. Its deletes and creates are given by `Rebuild.RebuildWrites`. |
| `Rebuild.Recreate` | controllers/node_controller.go:198-229 | For a fetched candidate the loop makes one get of the claim, then one delete of the recreated claim, then one create of it per attempt of the bounded retry, and nothing else. |
| `Rebuild.Rewrite` | controllers/node_controller.go:222-229 | The claim writes for one fetched candidate: a delete of the recreated claim, then as many creates of it as attempts made. |
| `Rebuild.RecreateWrites` | controllers/node_controller.go:222-229 | Filtering one candidate's calls down to claim deletes and creates gives exactly that delete and those creates. |
| `Rebuild.RebuildWrites` | controllers/node_controller.go:197-237 | The loop's claim deletes and creates are exactly, in order, one delete and then one create per attempt for each fetched candidate up to and including the first exhausted one. Unfetched candidates get none. |
| `Rebuild.RebuildFails` | controllers/node_controller.go:227-237 | The loop gives up exactly when some fetched candidate exhausts its twelve creates. |
| `Rebuild.RebuildPanics` | controllers/node_controller.go:230-236 | The loop panics exactly when it gives up on a candidate whose claim lacks a storage class or a volume mode. It never panics without giving up. |
| `Rebuild.RebuildCache` | controllers/node_controller.go:197-203 | The loop adds to the negative cache exactly the candidates before the first exhausted one whose claim could not be fetched. |
| `Rebuild.RebuildVisits` | controllers/node_controller.go:197-237 | The loop fetches the claims of the candidates in order, up to and including the first exhausted one, and no others. |
| `Rebuild.ExhaustedNotCached` | controllers/node_controller.go:230-237 | The candidate whose creates were exhausted is not added to the negative cache, so a later pass selects it again. |
| `Rebuild.ResourceReconcile` | controllers/node_controller.go:94-108 | A pass rebuilds exactly when the scan succeeds. The cache only grows, and only by candidates of this scan. |
| `Capacity.ReconcilePv` | controllers/persistentvolume_controller.go:51-82 | An event within fifteen seconds of the last accepted one does nothing and keeps the timestamp. Otherwise the timestamp becomes the post-sleep clock, and the pass aggregates exactly for a missing volume or a plugin volume. It fails exactly on a fetch error. |
| `Capacity.DebounceWindow` | controllers/persistentvolume_controller.go:53-59 | After an accepted event, any event less than fifteen seconds after the wake-up clock is dropped. |
| `Capacity.FieldNameInjective` | controllers/persistentvolume_controller.go:136-147 | The keys `nodeName`, `capacity.<k>` and `allocatable.<k>` never collide. |
| `Capacity.Serialize` | controllers/persistentvolume_controller.go:133-149 | The Go record holds each field under its string key with its value, and no other key. |
| `Capacity.SerializeInjective` | controllers/persistentvolume_controller.go:133-149 | Two records are equal exactly when their Go string maps are. |
| `Capacity.QuantityFields` | controllers/persistentvolume_controller.go:136-145 | A field is summarized exactly when it names a capacity or an allocatable quantity of the node whose name carries the device prefix. |
| `Capacity.Quantities` | controllers/persistentvolume_controller.go:136-145 | The summary holds exactly the node's capacity and allocatable quantities whose name carries the device prefix. |
| `Capacity.QuantitiesPresent` | controllers/persistentvolume_controller.go:136-146 | The summary is non-empty exactly when some capacity or allocatable quantity carries the prefix. |
| `Capacity.NodeRecordPresent` | controllers/persistentvolume_controller.go:146-149 | A node has a record exactly when one of its capacity or allocatable quantities carries the prefix. |
| `Capacity.NodeRecordFields` | controllers/persistentvolume_controller.go:134-149 | A record holds the node name and the node's prefixed quantities, and nothing else. |
| `Capacity.NodeRecordValues` | controllers/persistentvolume_controller.go:138-143 | Every quantity is written as a decimal that reads back as the quantity. |
| `Capacity.NodeRecordNamed` | controllers/persistentvolume_controller.go:147 | A record is filed under its node's name. |
| `Capacity.RecordsMembers` | controllers/persistentvolume_controller.go:133-150 | The records are exactly those of the listed nodes that have one. |
| `Capacity.RecordsDistinct` | controllers/persistentvolume_controller.go:133-150 | Nodes with distinct names give records with distinct names. |
| `Capacity.CacheHitSpec` | controllers/persistentvolume_controller.go:198-213 | The cache is hit exactly when it has as many entries as there are records and holds every record, unchanged, under its node name. |
| `Capacity.CacheHitOrderFree` | controllers/persistentvolume_controller.go:203-211 | Reordering the records does not change whether the cache is hit. |
| `Capacity.RefreshHolds` | controllers/persistentvolume_controller.go:215-220 | With distinct node names, the refreshed cache holds every record under its name, one entry per record, and no other name. |
| `Capacity.RefreshThenHit` | controllers/persistentvolume_controller.go:194-220 | With distinct node names, the same records hit the cache right after a refresh. |
| `Capacity.HitIffRefreshNoop` | controllers/persistentvolume_controller.go:198-220 | With distinct node names, the cache is hit exactly when refreshing it would leave it unchanged. |
| `Capacity.Upsert` | controllers/persistentvolume_controller.go:152-195 | Details below. |
| `Capacity.UpdateNodeConfigMap` | controllers/persistentvolume_controller.go:126-131 | Every aggregation lists the nodes first. A list failure issues nothing else, fails and keeps the cache. |
| `Capacity.UpdateNodeConfigMapSpec` | controllers/persistentvolume_controller.go:126-196 | Over listed nodes, the aggregation states `Capacity.Upsert`'s contract for the nodes' records, after the list call. |
| `Capacity.HitIssuesNothing` | controllers/persistentvolume_controller.go:152-154 | A cache hit issues no get, create or update, keeps the cache and succeeds. |
| `Capacity.UpdateThenQuiet` | controllers/persistentvolume_controller.go:187-195 | After a successful update, a second aggregation over the same nodes, with distinct node names, is a cache hit. |
| `Capacity.CreateThenWritesAgain` | controllers/persistentvolume_controller.go:162-183 | A successful create leaves the cache as it was. The next aggregation over the same nodes therefore updates the ConfigMap again. |
| `Text.Split` | controllers/pod_controller.go:320 | Splitting yields at least one piece, and no piece contains the separator. |
| `Text.JoinSplit` | controllers/pod_controller.go:320 | Joining the pieces of a split gives back the string. |
| `Text.SplitJoin` | controllers/pod_controller.go:320-321 | Splitting a join of separator-free pieces gives back the pieces. |
| `Text.FormatIntShape` | controllers/persistentvolume_controller.go:138 | The decimal rendering has a minus sign exactly for a negative number, then only digits. |
| `Text.FormatParse` | controllers/persistentvolume_controller.go:143 | Every integer reads back from its decimal rendering. |
| `Assoc.LastWins` | controllers/node_controller.go:131-137 | A map filled by assignments in order holds `k -> v` exactly when the last assignment to `k` is `v`. |
| `Assoc.DistinctKeysSize` | controllers/persistentvolume_controller.go:216-219 | With distinct keys, no assignment is overwritten: one entry per pair, each with its value. |

What `Capacity.Upsert`'s contract states, for the records built from the listed nodes:
- It issues no call exactly when the cache is hit. A hit succeeds and keeps the cache.
- On a miss, the first call fetches `carina-node-storage` from the namespace.
- A failed fetch issues nothing more, fails and keeps the cache.
- An absent ConfigMap is created. The pass succeeds exactly when the create does, and the cache is kept.
- A present ConfigMap is updated. The pass succeeds exactly when the update does, and then the cache is refreshed.
- The cache is either kept, or it is replaced by the refreshed records after a successful update, which is then the last call.
- A create writes a new `carina-node-storage` in the given namespace holding only `node` mapped to the JSON of the records.
- An update replaces the existing ConfigMap's data by that single entry.

## Left out

- `pkg/csidriver/driver/identity.go` (the CSI identity service) is not part of this model.
- `SetupWithManager` of all three controllers is not modelled: the manager wiring, the rate limiters, the ten- and one-minute tickers and the goroutines that drive the periodic passes. Each periodic pass is modelled as one call.
- The node controller's `Reconcile` only starts `resourceReconcile` in a goroutine, so it is not modelled on its own.
- Time is left out:
  - the 30-second sleeps of the pod controller's wait loop;
  - the random 30–60 second sleep of the PersistentVolume controller, whose clock after the sleep is the input `wake`;
  - the 10-second interval of `UntilMaxRetry`.
- Logging is left out throughout.
- The ordering of calls across concurrent passes is not modelled; each pass is sequential and deterministic given its inputs.
- The cluster client is replaced by its answers:
  - listings and fetches are inputs;
  - field-index lookups are filters over the listed objects (`Matching`, `SelectByIndex`);
  - any error is one outcome, since the controllers never distinguish between errors except NotFound.
- The shell executor is replaced by the log of `echo` commands and the set of commands that fail. The kernel's reaction to a write is the separate function `Throttle.Effect`, which follows the comment on `writeCgroupBlkioFile`.
- The utils helpers are not part of this model. `ContainsString`, `SliceRemoveString`, `MapEqualMap` and `UntilMaxRetry` are modelled by their evident meaning:
  - membership;
  - removal of every occurrence;
  - map equality;
  - call until success, at most `max` times.
- The utils constants (plugin name, scheduler name, finalizer, capacity prefix, device attribute keys) are fields of `Base.Settings`. `configuration.RuntimeNamespace()` is the parameter `namespace`.
- Capacity.UpdateNodeConfigMap: `json.Marshal` is the function parameter `json`, and its error path is not modelled. A slice of string maps always marshals.
- Capacity.Quantities: a `resource.Quantity` is its `Value()`, an integer. Rounding of fractional quantities is not modelled.
- Capacity.ReconcilePv: the debounce compares nanoseconds exactly. Go compares the floating-point `Seconds()` of the difference with 15, and the rounding at the boundary is not modelled.
- Throttle.ParseLine: a line without a second field gives an empty value. The value is never used, because the full pass panics on such a file before planning (`Throttle.ResyncPlan`).
- Throttle.Effect: the write is assumed to put the annotation value into the file verbatim. The code pastes the value unquoted into a `bash -c` line, so a value with white space or shell metacharacters is run as shell code. The effect of such a value is not modelled; `Throttle.ShellSplitsValue` shows how it is split.
- Rebuild.RebuildFrom: a panic ends the whole controller process, and with it the in-memory negative cache. The model records the panic as `panicked` and does not model the restart.
- Throttle.ReadHost: a scanner error mid-file is not modelled. A file either opens and is read in full, or is absent.
- Rebuild.RebuildFrom: the Go loop reuses one `pvc` variable across iterations. A `Get` into it is modelled as returning exactly the stored claim, with no carry-over of fields from an earlier iteration.
- Rebuild.RebuildFrom: the order in which Go iterates the candidate map is the input `order`. The theorems hold for every order that enumerates the candidates.
- Record keys are the datatype `Capacity.Field` rather than strings. `Capacity.Serialize` gives Go's string map, and `Capacity.SerializeInjective` shows that nothing is lost.

## Notes on the code's behaviour

These are behaviours of the code that a reader might not expect. The model follows the code in each case.

- The single-pod pass starts from empty `current` maps. It therefore suppresses nothing: it writes every device of the pod on every file, "0" where the pod has no annotation (`Throttle.SinglePodWrites`).
- The full pass assigns "0" only to devices that some pod uses. A limit on a device that no current pod uses is never cleared (`Throttle.ResyncSkipsUnusedDevices`).
- The full pass panics when a host throttle file holds a line without a second field (`Throttle.ResyncPlan`).
- The `<namespace>-<claim>` index key can be shared by two different claims, so a pod can be throttled through another namespace's volume (`Throttle.ForeignClaimResolves`). The `<scheduler>-<node>` key collides the same way, so the full pass can throttle a pod the event filter rejects (`Throttle.SelectsForeignPod`).
- The wait for a running pod ends the reconcile as soon as a re-fetch succeeds. A pod that is not yet running is configured only when all five re-fetches fail (`Throttle.ReconcilePodSpec`).
- An orphaned LogicVolume is deleted first and patched afterwards (`Rebuild.DeleteThenPatch`).
- A claim whose creates are exhausted is not put in the negative cache and is selected again on the next pass (`Rebuild.ExhaustedNotCached`).
- The warning logged after twelve failed creates dereferences the claim's storage class and volume mode. A claim lacking either one makes it a nil-pointer panic in the rebuild goroutine, which ends the process (`Rebuild.RebuildPanics`).
- The throttle writes run `bash -c "echo <device> <value> > <file>"` with the pod's annotation value unquoted. A pod author can therefore have the node run arbitrary shell commands (`Throttle.ShellSplitsValue`).
- Creating the ConfigMap does not refresh the capacity cache, so the next aggregation writes the same data again (`Capacity.CreateThenWritesAgain`). A capacity record always carries `nodeName`, so the empty name Go would read for a missing key never occurs.
