# SNMP mini agent: a Dafny model of the scalar store and its responders

The repository holds two versions of a small SNMPv2c agent. Each serves four
scalars under the enterprise subtree 1.3.6.1.4.1.28308.1:

- `manager` and `managerEmail`, which are DisplayString;
- `cpuUsage`, an Integer32 that can only be read;
- `cpuThreshold`, an Integer32 that can be written.

The scalars live in a JSON state file. An asynchronous sampler stores the CPU
load every few seconds and raises an alert on a rising edge of
`cpuUsage > cpuThreshold`.

- `mini_agent.py` (`JsonStore`) reads the whole registry from the JSON document:
  each scalar's OID, type, access and optional limits.
- `mini_agent_malo.py` (`MibStore`) keeps the registry in the static `SCALARS`
  table. Its state file holds only the values.

This project models both stores and the logic the two agents share:

- the registry and its sorted index;
- the exact lookup of GET and the successor lookup of GETNEXT, which uses the
  lexicographic OID order of section 4.2.2 of RFC 3416;
- SET, checked against the access and limits, with the error-status codes of
  section 3 of RFC 3416;
- the GET, GETNEXT and SET command responders, SET being all-or-nothing;
- the CPU sampler's edge-triggered decisions;
- the event loop that interleaves sampler iterations with SET requests.

Modules, one per file:

| file | module | what it holds |
|---|---|---|
| `wrappers.dfy` | `Wrappers` | `Option` |
| `oids.dfy` | `Oids` | Python tuple order on OIDs, `sorted`, successor search |
| `values.dfy` | `Values` | varbind syntaxes, JSON values, Python `str()` / `int()` on them |
| `store.dfy` | `ObjectStore` | the store shared by both agents: registry, `get_exact`, `get_next`, `validate_set`, `commit_set`, `set_cpu_usage_internal` |
| `responders.dfy` | `Responders` | `JsonGet`, `JsonGetNext`, `JsonSet` |
| `sampler.dfy` | `Sampler` | `cpu_sampler` |
| `enterprise.dfy` | `Enterprise` | the base OID and the four instance OIDs |
| `json_agent.dfy` | `JsonAgent` | `JsonStore`: registry from the document, the default document, save and load |
| `malo_agent.dfy` | `MaloAgent` | `MibStore`: the `SCALARS` registry, `_load_state`, save and load |
| `schedule.dfy` | `Schedule` | the asyncio loop shared by the responders and `cpu_sampler`: SET requests and sampler iterations interleaved |

Python exceptions that end a request or the sampler task are modelled as
results:

- `int()` of a text that is not a decimal numeral makes a GET or GETNEXT raise
  before the response is sent. The handler then returns `None` and the request
  goes unanswered. A SET validates every value before it commits, so its
  read-back cannot raise.
- An iteration of the sampler first stores the clamped sample and then reads
  the threshold back. A missing or unconvertible threshold raises there, and
  so does reading managerEmail: mini_agent.py reads it only when the alert
  fires and needs text, mini_agent_malo.py reads it in every iteration. Such
  an iteration is `Raised`, with the sample already stored, and `RunSampler`
  stops there.

`mini_agent.py` accepts type and access strings the rest of its code does not
expect:

- A type other than "DisplayString" and "Integer32" is `UnknownType`. Reads
  answer it with Null, `validate_set` lets any value through, and `commit_set`
  leaves it alone. A successful SET on such an object therefore answers Null.
- Only the exact access string "read-only" refuses writes. Every other string
  is writable.

`mini_agent_malo.py` does not check loaded values against `SCALARS`. A value
outside the limits, or a threshold that is not a number, is served as loaded
(`LoadedValuesBypassLimits`, `UnconvertibleThreshold`, `TextThresholdLoads`).

## Model

| member | source | states |
|---|---|---|
| Oids.LessIsLexBefore | mini_agent.py:102 | Python's `>` on OID tuples is the lexicographic order: a proper prefix comes first, otherwise the first differing arc decides |
| Oids.LessIrreflexive | mini_agent.py:102 | no OID lies above itself, so `get_next` never returns the OID it was asked about |
| Oids.LessTransitive | mini_agent.py:33 | the tuple order is transitive |
| Oids.LessTotal | mini_agent.py:33 | any two distinct OIDs are ordered one way or the other, so `sorted` has one answer |
| Oids.LessAsymmetric | mini_agent.py:33 | two OIDs are never each below the other |
| Oids.PrefixLess | mini_agent_malo.py:29 | an OID built as `BASE_OID + (k, 0)` sorts above `BASE_OID` |
| Oids.CommonPrefixLess | mini_agent_malo.py:62-63 | OIDs with a common prefix sort by what follows it, so the `BASE_OID + (k, 0)` instances sort by `k` |
| Oids.InsertAscending | mini_agent.py:33 | inserting a new OID into an ascending index keeps it ascending and adds exactly that OID |
| Oids.SortOidsAscending | mini_agent.py:33 | `sorted(oid_map.keys())` is strictly ascending and a permutation of the keys |
| Oids.FirstAbove | mini_agent.py:100-106 | the scan returns an indexed OID above the probe, and `None` only when no indexed OID lies above it |
| Oids.FirstAboveIsLeast | mini_agent.py:100-106 | on an ascending index the first candidate above the probe is the least OID above it |
| Oids.FirstAboveAt | mini_agent.py:100-106 | on an ascending index the successor of the i-th OID is the (i+1)-th, and nothing follows the last |
| Oids.CountAboveMonotone | test.py:92-115 | a larger probe leaves no more indexed OIDs above it |
| Oids.CountAboveShrinks | test.py:92-115 | feeding a GETNEXT answer back in strictly reduces what is left to visit, so a walk ends |
| Oids.AscendingUnique | mini_agent.py:33 | two ascending lists with the same members are equal, so the index is fixed by the registered OIDs |
| Values.ParseDecimalText | mini_agent.py:157-159 | `int(str(n)) == n` for every integer |
| Values.StrOf | mini_agent.py:157 | `str()` of a JSON string is the string itself, and `str()` of a number is a numeral `int()` reads back as that number |
| ObjectStore.OidIndex | mini_agent.py:86-91 | every scalar's OID is a key of `oid_map`, and each key maps to a scalar that carries that OID |
| ObjectStore.OidIndexLastWins | mini_agent.py:86-91 | an OID maps to the name of the last scalar in document order that carries it, so a later scalar with the same OID replaces an earlier one |
| ObjectStore.DefIndex | mini_agent.py:97 | with distinct names, each scalar name finds its own definition |
| ObjectStore.KeysInOrder | mini_agent.py:33 | `oid_map.keys()` lists each registered OID once, and only those |
| ObjectStore.Assemble | mini_agent.py:29-33 | the store built from the scalars is consistent: each registered OID names a scalar with that OID and a value, and the index is the ascending list of exactly the registered OIDs |
| ObjectStore.AssembleValid | mini_agent.py:29-33 | the map, the definitions and `sorted(oid_map.keys())` together satisfy the store invariant |
| ObjectStore.AssembleNames | mini_agent.py:86-91 | when no two scalars share an OID, each is found under its own OID with its own definition |
| ObjectStore.AssembleRegistry | mini_agent.py:31-33 | the registry depends only on the scalar definitions, never on their values |
| ObjectStore.GetExact | mini_agent.py:93-98 | an unregistered OID is "no such object"; a registered one answers the syntax of its type holding `str()` or `int()` of the stored value; it raises exactly when an Integer32 object holds text `int()` rejects |
| ObjectStore.ReadText | mini_agent.py:155-157 | a DisplayString object holding text answers that text |
| ObjectStore.ReadNumber | mini_agent.py:158-159 | an Integer32 object holding a number answers that number |
| ObjectStore.GetNext | mini_agent.py:100-106 | the answer is the least registered OID strictly above the probe, with what GET would answer for it; end of tree exactly when nothing registered lies above the probe; it raises exactly when that least OID holds a value that does not convert |
| ObjectStore.LeastIsUnique | mini_agent.py:100-106 | at most one registered OID is the least above a probe, so GETNEXT's answer is determined |
| ObjectStore.WalkStep | mini_agent.py:100-106 | on a store whose values all convert, GETNEXT on the i-th indexed OID answers the (i+1)-th, and the walk carries on from there |
| ObjectStore.WalkLast | mini_agent.py:100-106 | nothing registered lies above the last indexed OID, so GETNEXT on it answers end of tree and the walk stops |
| ObjectStore.WalkFrom | mini_agent.py:100-106 | starting from the i-th indexed OID, repeated GETNEXT visits the rest of the index in order |
| ObjectStore.WalkVisitsEveryObjectOnce | test.py:151-168 | a walk from below every registered OID visits each registered OID exactly once, in ascending order, and then reaches the end of the tree |
| ObjectStore.ValidateSet | mini_agent.py:108-135 | noError exactly when the OID is registered, writable, of the right syntax and within limits; otherwise the first failing check in source order decides between noAccess (6), notWritable (17), wrongType (7) and wrongValue (10) |
| ObjectStore.CommitSet | mini_agent.py:137-149 | after a validated write the object reads back the value written (Null for an unknown type), the stored value respects the limits, every other object and the registry are unchanged, and an object of unknown type keeps its stored value, so the store is unchanged |
| ObjectStore.SetCpuUsage | mini_agent.py:151-153 | the sampler's store puts the given number in cpuUsage and changes nothing else |
| Responders.ExactItem | mini_agent.py:173-175 | a GET item answers the requested OID with its value, or with noSuchObject exactly when the OID is unregistered; it fails exactly when the value does not convert |
| Responders.NextItem | mini_agent.py:193-198 | a GETNEXT item answers the least registered OID above the request with its value, or echoes the requested OID with endOfMibView exactly when nothing lies above it |
| Responders.HandleGet | mini_agent.py:169-181 | the GET response answers every varbind in request order, item by item, and is sent exactly when no item raises |
| Responders.HandleGetNext | mini_agent.py:189-204 | the GETNEXT response answers every varbind in request order, item by item, and is sent exactly when no item raises |
| Responders.HandleGetAnswers | mini_agent.py:173-180 | a GET whose items each have a given answer responds with exactly those answers, in order |
| Responders.ReadsNeverFail | mini_agent.py:169-204 | on a store whose values all convert, GET and GETNEXT always answer, and an unregistered OID gets noSuchObject in place |
| Responders.FirstInvalid | mini_agent.py:215-223 | no failure exactly when every varbind validates; otherwise the failure carries the status and 1-based index of the first varbind refused, and all earlier varbinds validate |
| Responders.LastWriteIsLast | mini_agent.py:225-226 | a batch leaves a value in an object exactly when some varbind names its OID, and that value is the one the last such varbind carries |
| Responders.CommitAll | mini_agent.py:225-226 | committing a validated batch keeps the store consistent and its registry unchanged |
| Responders.CommitAllFrame | mini_agent.py:225-226 | committing a batch keeps the set of scalars, leaves every scalar the batch does not name and every scalar of unknown type with its old value, and keeps every value convertible |
| Responders.CommitAllReadsBack | mini_agent.py:225-231 | after the batch commits, each object it wrote reads back the last value written to it, within the object's limits |
| Responders.ReadBackItem | mini_agent.py:228-231 | the read-back of the i-th varbind of a committed batch is the last value the batch wrote to that OID |
| Responders.ValidatePhase | mini_agent.py:215-223 | the validation loop stops at the first refused varbind and reports the same failure as the specification function |
| Responders.CommitPhase | mini_agent.py:225-226 | the commit loop produces the store of the batch committed in order |
| Responders.ReadBackPhase | mini_agent.py:228-231 | the read-back loop answers each varbind as GET would, in request order |
| Responders.Answers | mini_agent.py:228-231 | the read-back answers exactly one varbind per request item |
| Responders.SetOutcome | mini_agent.py:212-237 | whatever the batch, the SET leaves a consistent store with the registry it started with |
| Responders.SetAllOrNothing | mini_agent.py:212-237 | all or nothing: a SET is refused exactly when some varbind fails validation; a refusal replies with the first failure's status and 1-based index and leaves the store as it was; an accepted SET has every varbind valid and commits them all in request order |
| Responders.SetAnswersLastWrites | mini_agent.py:225-237 | an accepted SET answers one varbind per request item, each with the item's OID and the last value the batch wrote to that object, and GET on the new store reads back that same varbind |
| Responders.SetThenGet | mini_agent.py:169-237 | a one-varbind SET is accepted exactly when the varbind validates; a refusal replies with its status at index 1 and keeps the store; an acceptance commits the value as `commit_set` does, echoes the OID with the value as written, and a GET on the new store answers that same varbind |
| Responders.HandleSet | mini_agent.py:212-237 | the validate, commit and read-back loops together produce exactly the reply and store of `SetOutcome`, so the all-or-nothing and last-write properties above hold of the responder |
| Sampler.Clamp | mini_agent.py:293 | the stored reading lies in 0..100 and equals the sample when the sample is already in range |
| Sampler.Trace | mini_agent.py:289-303 | one decision per sample; the i-th compares the i-th clamped sample with its threshold against the `last_over` the previous decision left, or the starting `last_over` for the first |
| Sampler.AlertsExactlyOnRisingEdges | mini_agent.py:298-303 | each iteration stores the clamped sample and sets `last_over` to `cpu > threshold`; the alert fires exactly when the comparison holds now and did not hold at the previous sample |
| Sampler.NoRepeatedAlerts | mini_agent.py:300-303 | no alert in two consecutive iterations, and none in an iteration that is not over the threshold |
| Sampler.ThresholdScenario | mini_agent.py:297-303 | samples 70, 85, 90, 60, 95 against threshold 80 alert at 85 and at 95 only |
| Sampler.SampleTick | mini_agent.py:241-301 | one iteration stores the clamped sample in cpuUsage and nothing else, and decides against the threshold read back from the store; it completes exactly when cpuUsage and cpuThreshold are present, the threshold converts, and the managerEmail read succeeds (mini_agent.py: text, needed only when the alert fires; mini_agent_malo.py: present, needed every iteration, lines 249-252); a raise after the write keeps the stored sample |
| Sampler.RunSampler | mini_agent.py:285-304 | consecutive iterations, with no request served between them, keep the store consistent, its registry and every value other than cpuUsage unchanged, take at most one decision per sample, and leave in cpuUsage the clamped sample of the last iteration started |
| Sampler.FirstAlert | mini_agent.py:300-301 | the position of the first iteration that raises the alert: none fires before it, and it fires there unless the trace has ended |
| Sampler.RunFollowsTrace | mini_agent.py:241-303 | with a convertible threshold and no request served between iterations, the loop takes exactly the `Trace` decisions against that threshold, since the sampler writes only cpuUsage; it stops at once when mini_agent_malo.py has no managerEmail, and just before the first alert when mini_agent.py's managerEmail is missing or a number |
| Sampler.RunHaltsOnBadThreshold | mini_agent.py:295-297 | a threshold `int()` rejects ends the loop in its first iteration, before any decision, with that iteration's clamped sample stored in cpuUsage |
| Enterprise.InstancesAscendAboveBase | mini_agent_malo.py:23-63 | the base OID sorts below all four instances, and the instances `.1.0` to `.4.0` are in ascending order |
| JsonAgent.KindOf | mini_agent.py:155-160 | the type string selects DisplayString or Integer32 exactly when it names them; any other string selects neither branch |
| JsonAgent.AccessOf | mini_agent.py:115-116 | a scalar refuses writes exactly when its access string is "read-only" |
| JsonAgent.Limits | mini_agent.py:125-132 | each of `minlen`, `maxlen`, `minval` and `maxval` is the scalar's own limit when it gives one, and otherwise 0, 255, 0 and 2147483647 |
| JsonAgent.Entries | mini_agent.py:86-91 | the registry lists every scalar of the document exactly once, each with the limits `Limits` gives it |
| JsonAgent.Open | mini_agent.py:29-33 | the store built from a document is consistent and holds the document's values |
| JsonAgent.OpenRegisters | mini_agent.py:86-91 | every scalar of the document is registered under its OID |
| JsonAgent.OpenDefines | mini_agent.py:86-91 | every registered OID names a scalar of the document that carries that OID, with that scalar's limits |
| JsonAgent.OpenKeepsLimits | mini_agent.py:125-132 | each scalar of the document is defined, under its own name, with the type, access and limits it declares |
| JsonAgent.Snapshot | mini_agent.py:80-84 | the saved document has the same scalars in the same order, each with its current value |
| JsonAgent.SnapshotKeepsEntries | mini_agent.py:80-84 | saving does not change any scalar's registry entry |
| JsonAgent.SnapshotKeepsValues | mini_agent.py:80-84 | the saved document holds exactly the store's values |
| JsonAgent.SaveLoadRoundTrip | mini_agent.py:29-91 | writes change only values, so the agent holds the registry it opened with and a value for every scalar; saving those values and starting again from the saved file gives back that same store |
| JsonAgent.Start | mini_agent.py:29-33 | the store an agent starts from is consistent, whichever document it loads |
| JsonAgent.DefaultScalars | mini_agent.py:40-76 | the default document's four scalars, with their OIDs and limits, defaults filled in |
| JsonAgent.DefaultOidsDistinct | mini_agent.py:44-68 | no two scalars of the default document share an OID |
| JsonAgent.DefaultNamed | mini_agent.py:40-91 | without a state file each default scalar is registered under its own OID with its own limits |
| JsonAgent.DefaultRegistersInstancesOnly | mini_agent.py:40-91 | without a state file only the four instance OIDs are registered |
| JsonAgent.DefaultIndex | mini_agent.py:29-76 | without a state file the registered OIDs are exactly the four instances, indexed in walk order |
| JsonAgent.DefaultLimits | mini_agent.py:40-76 | without a state file: manager 1..255 characters, managerEmail 4..255, cpuUsage read-only 0..100, cpuThreshold writable 0..100 |
| JsonAgent.StartsWithDefaultRegistry | mini_agent.py:29-76 | without a state file the agent starts with the default registry over the four instances |
| JsonAgent.OpenWellKinded | mini_agent.py:155-160 | a document whose Integer32 scalars all hold values `int()` accepts opens into a store where no read raises |
| JsonAgent.DefaultWellKinded | mini_agent.py:40-76 | without a state file no read raises |
| JsonAgent.StartsWithDefaultValues | mini_agent.py:40-78 | without a state file the values are "manager", "fakeunizar@gmail.com", 10 and 80 |
| JsonAgent.DefaultTextItems | mini_agent.py:93-98 | on the default store GET answers the manager name and address as text |
| JsonAgent.DefaultIntegerItems | mini_agent.py:93-98 | on the default store GET answers cpuUsage 10 and cpuThreshold 80 |
| JsonAgent.DefaultReadable | mini_agent.py:155-160 | on the default registry with the default values no read raises |
| JsonAgent.TextScalarsReadable | mini_agent.py:155-160 | when only the DisplayString scalars hold text, no read raises |
| JsonAgent.DefaultGet | mini_agent.py:169-181 | a GET of the four instances on the default store answers the four default values in order |
| JsonAgent.DefaultWalk | test.py:92-115 | on the default store the first GETNEXT from the base OID answers the manager name, and the walk visits the four instances in order |
| JsonAgent.DefaultReadOnlyRules | test.py:170-183 | on the default registry a write to cpuUsage is notWritable whatever the value, and the base OID is noAccess |
| JsonAgent.DefaultTextRules | mini_agent.py:118-126 | manager accepts text of 1..255 characters, managerEmail 4..255, and an integer for manager is wrongType |
| JsonAgent.DefaultThresholdRules | mini_agent.py:128-133 | cpuThreshold accepts integers 0..100 and refuses text with wrongType |
| JsonAgent.SetThenGetScenario | test.py:117-149 | on the default registry, SETs of manager to "TestManager", then managerEmail to "test@example.com", then cpuThreshold to 75 are each accepted and echoed by the SET responder, and a GET of the same OID on the store each SET leaves answers the value written |
| JsonAgent.DefaultSetThenGet | mini_agent.py:169-237 | on the default registry a one-varbind SET of an instance that validates is echoed with the value written, a GET then answers it, and the registry stays the default one |
| JsonAgent.RejectedBatchScenario | mini_agent.py:215-223 | a batch whose second varbind writes cpuUsage is refused with notWritable at index 2, and the store is unchanged, the valid first varbind included |
| MaloAgent.RegistryShape | mini_agent_malo.py:27-63 | `SCALARS` has distinct names and OIDs, every scalar has a default and every default a scalar, and the OIDs are the four instances in declaration order |
| MaloAgent.LoadState | mini_agent_malo.py:74-88 | with no file or an unusable one the model is the defaults; otherwise the file's values are kept as they are and each missing scalar gets its default |
| MaloAgent.LoadStateIdempotent | mini_agent_malo.py:74-85 | loading a model that a load produced changes nothing |
| MaloAgent.Open | mini_agent_malo.py:62-72 | the store over a model that has every scalar is consistent and holds the model's values |
| MaloAgent.Start | mini_agent_malo.py:70-72 | the store an agent starts from is consistent and holds the loaded model |
| MaloAgent.RegistryIgnoresState | mini_agent_malo.py:62-63 | the registry is the same whatever the state file holds |
| MaloAgent.SaveLoadRoundTrip | mini_agent_malo.py:74-92 | whatever file the agent started from, saving any model that has every scalar and starting again from the saved file gives back the starting registry with exactly that model |
| MaloAgent.OpenNames | mini_agent_malo.py:27-62 | each instance OID names its scalar with the access and limits of `SCALARS` |
| MaloAgent.OpenRegistersInstancesOnly | mini_agent_malo.py:62 | only the four instance OIDs are registered |
| MaloAgent.OpenIndex | mini_agent_malo.py:62-63 | the registered OIDs are exactly the four instances, indexed in walk order |
| MaloAgent.StartsWithRegistry | mini_agent_malo.py:27-72 | whatever the state file, the agent serves the `SCALARS` registry over the four instances |
| MaloAgent.ReadOnlyRules | mini_agent_malo.py:113-119 | a write to cpuUsage is notWritable whatever the value, and the base OID is noAccess |
| MaloAgent.TextRules | mini_agent_malo.py:120-125 | manager accepts text of 1..64 characters, managerEmail 3..254, and an integer for either is wrongType |
| MaloAgent.ThresholdRules | mini_agent_malo.py:126-131 | cpuThreshold accepts integers 0..100 and refuses text with wrongType |
| MaloAgent.DefaultTextItems | mini_agent_malo.py:94-103 | with the defaults GET answers "NetAdmin" and "admin@example.com" |
| MaloAgent.DefaultIntegerItems | mini_agent_malo.py:94-103 | with the defaults GET answers cpuUsage 0 and cpuThreshold 80 |
| MaloAgent.DefaultsGet | mini_agent_malo.py:154-167 | a GET of the four instances on a store holding the defaults answers them in order |
| MaloAgent.DefaultGet | mini_agent_malo.py:74-88 | without a usable state file a GET of the four instances answers the defaults |
| MaloAgent.DefaultsReadable | mini_agent_malo.py:94-103 | with the defaults no read raises |
| MaloAgent.DefaultWalk | mini_agent_malo.py:105-111 | without a usable state file the first GETNEXT from the base OID answers "NetAdmin", and the walk visits the four instances in order |
| MaloAgent.LoadedValuesBypassLimits | mini_agent_malo.py:77-83 | a loaded manager name of any length is served as loaded, although a SET of the same text succeeds only for 1..64 characters |
| MaloAgent.UnconvertibleThreshold | mini_agent_malo.py:99-251 | a threshold holding text `int()` rejects makes its GET raise (lines 99-103), and the sampler's next iteration stores its sample and then raises |
| MaloAgent.TextThresholdLoads | mini_agent_malo.py:77-83 | such a threshold in the state file is loaded as it is; then reading it raises and so does the sampler's next iteration |
| MaloAgent.RejectedBatchScenario | mini_agent_malo.py:193-202 | a batch whose second varbind writes cpuUsage is refused with notWritable at index 2, and the store is unchanged, the valid first varbind included |
| Schedule.Apply | mini_agent.py:285-303 | one event keeps the store consistent with its registry; a SET leaves the sampler's state alone and decides nothing; an iteration of a stopped sampler does nothing; an iteration completes exactly when the task keeps running, and then decides `Step` on its sample against the threshold the store held at that moment; a raise stops the task for good |
| Schedule.ApplyIsEvent | mini_agent.py:360-368 | a SET event has exactly the SET responder's effect on the store, and an iteration of the running sampler exactly one `SampleTick` |
| Schedule.Interleave | mini_agent.py:360-368 | a schedule keeps the store consistent with its registry, takes at most one decision per iteration, and none once the sampler task has stopped |
| Schedule.InterleaveFollowsTrace | mini_agent.py:288-303 | the decisions of an interleaved run are the `Trace` of the readings it took: `last_over` carries from one iteration to the next across any SETs served in between |
| Schedule.ReadingsKeepThreshold | mini_agent.py:290-297 | when no SET in the schedule names cpuThreshold, every completed iteration reads the threshold the store started with, and the iterations take the schedule's samples in order |
| Schedule.ScheduleFollowsTrace | mini_agent.py:285-303 | when no SET names cpuThreshold, an interleaved run takes exactly the `Trace` decisions on its samples against the starting threshold, as an uninterrupted run would |
| Schedule.ThresholdSetScenario | mini_agent.py:290-303 | a SET of cpuThreshold served between two iterations changes the next decision: 70 against 80 raises no alert, and after the threshold is set to 60 the same 70 raises one |
| Schedule.ThresholdSet | mini_agent.py:128-149 | on the default registry a SET of cpuThreshold to a value in 0..100 stores that value, changes nothing else, and leaves the sampler running |
| Schedule.CompletingTick | mini_agent.py:292-303 | in mini_agent.py an iteration over a numeric threshold and a text managerEmail completes, storing the clamped sample and deciding `Step` against that threshold |

## Left out

- The pysnmp engine: transport, community and VACM configuration, PDU encoding, `sendPdu`, and the `asyncio` machinery itself. The loop is modelled only as the order of its atomic events (`Schedule`); which interleavings the dispatcher and the 5-second sleep actually produce is left open, so every property of `Schedule` holds of every schedule. The handlers never look at `acInfo`, so access control does not change what they compute.
- A refused SET echoes the request's varbinds. Its reply here carries only the error-status and error-index.
- Notification delivery is reduced to the alert decision (`Edge.notify`). Building the trap varbinds, `sysUpTime` from the clock, the e-mail message and SMTP are left out.
- Sampler.SampleTick: the managerEmail read is modelled, but a raise inside pysnmp's `sendVarBinds` or while building the e-mail headers is not, because those libraries are outside the model.
- `psutil.cpu_percent`, `round` and `asyncio.sleep` are left out. Samples are integer inputs, already rounded.
- File I/O is left out. The JSON state file is a `Document` (mini_agent.py) or a `StateFile` (mini_agent_malo.py) given as a parameter.
  - In mini_agent.py a malformed file makes `json.load` raise during start-up. The model requires a well-formed document.
  - `_save` after each write is the `Snapshot` function, stated once as a round trip rather than after every commit.
- The oid-string parsing in `_build_oid_map` is left out: the document's OID is already a sequence of arcs. The `"baseoid"` field is carried but only `main()` reads it (mini_agent.py:357), to print it, and `main()` is left out.
- JSON values other than strings and integers are left out: floats, booleans, null, objects. So are scalar entries without `"value"`, and non-dictionary `"scalars"` entries in a loaded mini_agent_malo.py file.
- Documents that mini_agent.py cannot use are left out, because the model's `Document` and `JsonScalar` always carry every field. Each of these raises in the source:
  - a document without `"scalars"` raises KeyError at start-up (mini_agent.py:88);
  - a scalar without `"oid"` raises KeyError at start-up (mini_agent.py:89);
  - a scalar without `"type"` raises KeyError on GET and GETNEXT (mini_agent.py:98, 105) and on SET (mini_agent.py:118);
  - a scalar without `"access"` raises KeyError on SET (mini_agent.py:115);
  - a `minlen`, `maxlen`, `minval` or `maxval` that is not a number raises TypeError in `validate_set` (mini_agent.py:125, 132). The model's limits are integers.
- Values.ParseDecimal: models `int()` on text as an optional sign followed by ASCII digits. Surrounding whitespace, underscores between digits and non-ASCII digits, which Python also accepts, are left out.
- Text is a sequence of characters. UTF-8 encoding of OctetString values, and the decode that can fail in mini_agent_malo.py's `validate_set` and `commit_set`, are left out.
- pysnmp's own 32-bit range check when building an Integer from a stored number is left out. Stored numbers are unbounded integers.
- The second element `validate_set` returns is ignored by every caller. Only the status is modelled.
- In mini_agent_malo.py the limits a type does not use (text limits of integers, range limits of texts) are recorded as 0. `validate_set` never reads them.
- Sampler.RunSampler: which decisions the run takes is stated by `RunFollowsTrace` and `RunHaltsOnBadThreshold`, not by its own contract. Both it and `RunFollowsTrace` describe iterations with no request served in between; SETs served at the `await asyncio.sleep(5)` (mini_agent.py:290, mini_agent_malo.py:246) are covered by `Schedule.ScheduleFollowsTrace` and `Schedule.ThresholdSetScenario`.
- Schedule.Interleave: GET and GETNEXT requests are not events, because they do not change the store or the sampler's state.
- The diagnostic `print` calls and the package check script are outside the modelled core.
