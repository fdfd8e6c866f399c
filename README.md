# i2sArbitor arbitration engine in Dafny

i2sArbitor sits in front of several audio services that share one I2S output,
such as `usboveri2s` and `usbaudio`. Each service exposes a small HTTP API. The
arbitration engine keeps a table from service name to status: online, locked,
active, priority, last check time and last error. It also keeps the name of the
active service. Its job is to keep at most one online service unlocked, that is,
allowed to drive the output. It changes state in five ways:

- a single lock call;
- `ActivateService`, which locks the others and then unlocks the target;
- `LockService`;
- `DeactivateAll`;
- a poll cycle, which reads every service's status and then enforces the
  single-unlocked rule.

The model has two layers.

- **Module `Arbitration`** gives the reference semantics as functions on a value
  copy of the state (`ArbiterState`). It also holds the lemmas that state what
  each operation promises.
- **Module `Arbiter`** is the engine as the Go code has it. The class `Arbiter`
  has the status table and the active service as fields, and its methods update
  them step by step with the same loops and branches. Each method is proved to
  leave `State()` as the matching `Arbitration` function says.

Module `Protocol` holds the wire side: request shapes, reply shapes, and how a
reply becomes success or an error text. Module `Config` holds the configuration
record the engine is built from.

Go visits a map in an unspecified order. Every operation that loops over the
table therefore takes that order as a parameter `visit`, which lists every
registered name exactly once. Every property is proved for every such order.

The devices are oracles:

- `LockNet` maps a service name and the request sent to the reply;
- `StatusNet` maps a service name and the URL fetched to the reply;
- the check times come from a parameter `stamps`.

The model follows the code exactly, including these behaviours a reader of its comments might not expect:

- a `state` field other than `"playing"` makes a service inactive; it does not
  leave it unchanged;
- a read or JSON error takes a service offline but keeps its `active` flag;
- the `data` unwrapping applies to every service's reply, not only to `usboveri2s`;
- the active-service tracking after a poll reads the entry's flags after
  decoding, and fields the reply does not mention keep their stored values. A
  decoded reply after which the entry is active and unlocked, whether from the
  reply's fields or from stored values, makes it the active service. One after
  which the active service's entry is inactive clears it, so a reply with neither
  `active` nor `state` clears a service that `ActivateService` made active
  while its stored `active` flag is false, because activation does not set that
  flag. Nothing else changes it, so the active service may be offline after a
  poll.

## Model

| member | source | states |
|---|---|---|
| `Arbiter.Arbiter.constructor` | internal/arbiter/arbiter.go:40-64 | New builds one entry per configured service, in configuration order, and starts with no active service |
| `Arbitration.InitialTable` | internal/arbiter/arbiter.go:51-61 | the table New builds, one descriptor after another; its keys and entries are stated by `InitialTableKeys` and `InitialTableEntries` |
| `Arbitration.InitialTableKeys` | internal/arbiter/arbiter.go:51-61 | New registers exactly the configured names |
| `Arbitration.InitialTableEntries` | internal/arbiter/arbiter.go:51-61 | every entry comes from the last descriptor with its name, so a duplicate overwrites the earlier one; every entry starts offline, unlocked, inactive and without an error |
| `Arbitration.Registered` | internal/arbiter/arbiter.go:52-60 | a new entry copies name, display name, base URL and priority, and starts offline, unlocked and inactive |
| `Arbiter.Arbiter.GetAllStatus` | internal/arbiter/arbiter.go:94-103 | one copy of every entry, in visiting order |
| `Arbiter.Arbiter.GetServiceStatus` | internal/arbiter/arbiter.go:106-115 | the entry when the name is registered; otherwise the not-found error with the text "service not found: " and the name |
| `Arbitration.ArbiterError.Message` | internal/arbiter/arbiter.go:112-152 | the text of each error the engine returns: "service not found: ", "service is offline: " or "failed to unlock service: " and the name or cause, or a failed call's own text; it is never empty |
| `Arbiter.Arbiter.GetActiveService` | internal/arbiter/arbiter.go:118-122 | the active service's name, which is "" or a registered name |
| `Protocol.LockAdapter` | internal/arbiter/arbiter.go:212-220 | only `usboveri2s` uses its own lock convention; `usbaudio` and every other name use the JSON one |
| `Protocol.LockedJson` | internal/arbiter/arbiter.go:266-267 | the JSON body `{"locked":true}` or `{"locked":false}` of a JSON-convention lock call; `LockRequestsDiffer` states that the two bodies differ |
| `Protocol.LockRequest` | internal/arbiter/arbiter.go:238-288 | a lock call goes to base URL + `/api/v1/lock`. The `usboveri2s` convention is POST to lock and DELETE to unlock, with no body. The JSON convention is POST with `{"locked":…}` and a JSON content type |
| `Protocol.LockRequestsDiffer` | internal/arbiter/arbiter.go:238-288 | under either convention, the lock request and the unlock request to a service differ |
| `Protocol.LockResultOf` | internal/arbiter/arbiter.go:251-262 | a lock call succeeds exactly on HTTP 200. A transport error fails with its own text. Any other status fails with "lock request failed: " and the body |
| `Protocol.StatusPath` | internal/arbiter/arbiter.go:357-362 | `usboveri2s` is polled at `/api/v1/player/status`, every other service at `/api/v1/status` |
| `Protocol.Decimal` | internal/arbiter/arbiter.go:376 | the status code is printed as its base-10 digits, which denote exactly that code, with no leading zero unless the code is 0 |
| `Protocol.BoolField` | internal/arbiter/arbiter.go:404-416 | a field read with a Go type assertion to bool; its use on `locked` and `active` is stated by `PolledEffect` |
| `Protocol.StringField` | internal/arbiter/arbiter.go:410-412 | a field read with a Go type assertion to string; its use on `state` is stated by `PolledEffect` |
| `Protocol.Payload` | internal/arbiter/arbiter.go:398-401 | the `data` object when the reply has one, else the whole reply; which fields the status rules read is stated by `PolledEffect` |
| `Arbitration.LockOutcome` | internal/arbiter/arbiter.go:211-220 | the reply of the call sent through the service's adapter to its base URL; `LockCallEffect` and `LockServiceInternal` state what follows from it |
| `Arbitration.LockApplied` | internal/arbiter/arbiter.go:222-228 | a successful call records the requested lock state and clears the error. A failed call records its non-empty error and keeps the lock state. Neither touches the configured fields, online, active or last check |
| `Arbitration.AfterLock` | internal/arbiter/arbiter.go:222-232 | the state after one lock call; stated by `LockCallEffect` |
| `Arbitration.LockCallEffect` | internal/arbiter/arbiter.go:207-235 | one lock call changes only its own entry. The active service changes only to "", and only when that call successfully locks it |
| `Arbitration.LockCallRepeat` | internal/arbiter/arbiter.go:207-235 | repeating a lock call, which sends the same request, leaves the state as one call did |
| `Arbiter.Arbiter.LockServiceInternal` | internal/arbiter/arbiter.go:207-235 | the state after the call is the one-call state for the adapter's reply. The returned error is present exactly when that reply is a failure, and it is that failure's text |
| `Arbitration.Wants` | internal/arbiter/arbiter.go:142-148 | which entries each loop of lock calls targets (every online one, every other online one, every other online unlocked one, every online unlocked one, all but the kept one); used by `SweepEntry` and `SweepEffect` |
| `Arbitration.Select` | internal/arbiter/arbiter.go:306-311 | a name is selected exactly when it is visited and passes the filter |
| `Arbitration.SelectDistinct` | internal/arbiter/arbiter.go:306-311 | the selected names repeat no name |
| `Arbitration.SelectFirst` | internal/arbiter/arbiter.go:306-311 | the first selected name is the first visited name that passes the filter |
| `Arbitration.SelectKeepsOrder` | internal/arbiter/arbiter.go:306-311 | of two selected names, the earlier one was visited earlier |
| `Arbitration.Sweep` | internal/arbiter/arbiter.go:167-175 | a loop of best-effort lock calls over the visited names; keeps the registered names, and is stated entry by entry by `SweepEntry`, `SweepActive` and `SweepLastError` |
| `Arbitration.SweepEntry` | internal/arbiter/arbiter.go:142-148 | in a loop of lock calls over distinct names, an entry the filter wants gets exactly one lock call, decided by its state before the loop; every other entry is untouched |
| `Arbitration.SweepActive` | internal/arbiter/arbiter.go:142-148 | such a loop clears the active service exactly when the loop visits it, wants it, and its lock call succeeds |
| `Arbitration.SweepEffect` | internal/arbiter/arbiter.go:193-199 | the two facts above together, for every entry |
| `Arbitration.SweepLastError` | internal/arbiter/arbiter.go:167-175 | such a loop ends with no error exactly when every lock call it owes succeeds. Otherwise the error is that of the last call to fail in visiting order |
| `Arbiter.Arbiter.LockEach` | internal/arbiter/arbiter.go:167-175 | the loop leaves the table, the active service and the last error exactly as the reference loop does |
| `Arbitration.Activation` | internal/arbiter/arbiter.go:125-158 | ActivateService on a value of the state; stated by `ActivationEffect` |
| `Arbitration.ActivationEffect` | internal/arbiter/arbiter.go:125-158 | an unknown or offline target gets its error and nothing changes. Otherwise: every other online service gets one lock call, whatever its lock state; the target gets one unlock call; the result has no error exactly when the unlock succeeds, and then the target becomes the active service and is unlocked (its `active` flag is not touched). A failed unlock returns "failed to unlock service" with the cause and does not set the active service; it stays as the peers' lock calls left it |
| `Arbiter.Arbiter.ActivateService` | internal/arbiter/arbiter.go:125-158 | the method returns the error and leaves the state that the reference activation describes |
| `Arbitration.LockChange` | internal/arbiter/arbiter.go:183-203 | LockService on a value of the state; stated by `LockChangeEffect` |
| `Arbitration.LockChangeEffect` | internal/arbiter/arbiter.go:183-203 | an unknown name gets not-found and nothing changes. An unlock first gives every other online, unlocked service one lock call; a lock touches only the target. The target gets one call, and that call's own failure is what is returned. The active service is cleared exactly when a successful lock reached it |
| `Arbiter.Arbiter.LockService` | internal/arbiter/arbiter.go:183-203 | the method returns the error and leaves the state that the reference lock change describes |
| `Arbitration.Deactivation` | internal/arbiter/arbiter.go:161-179 | DeactivateAll on a value of the state; stated by `DeactivationEffect` |
| `Arbitration.DeactivationEffect` | internal/arbiter/arbiter.go:161-179 | the active service always ends as "". Every online service gets one lock call and offline ones are untouched. The result has no error exactly when every call succeeds; otherwise it is the error of the last call to fail in visiting order |
| `Arbiter.Arbiter.DeactivateAll` | internal/arbiter/arbiter.go:161-179 | the method returns the error and leaves the state that the reference deactivation describes |
| `Arbitration.StatusOf` | internal/arbiter/arbiter.go:356-364 | the reply to a GET of base URL + status path; stated with the path by `StatusPath` |
| `Arbitration.Polled` | internal/arbiter/arbiter.go:351-396 | the entry after a status call; stated by `PolledEffect` |
| `Arbitration.Decode` | internal/arbiter/arbiter.go:403-416 | the field rules of a decoded reply in the engine's order; stated by `PolledEffect` |
| `Arbitration.PolledEffect` | internal/arbiter/arbiter.go:351-416 | a status call stamps the check time. A transport error or a non-200 status sets offline and inactive, records a non-empty error (the status one as "status code: " and the digits), and keeps `locked`. A read or decode error sets offline, records its error, and keeps `locked` and `active`. A decoded reply sets online and clears the error. Its `locked` field overwrites `locked`. `active` follows the `active` field, else `state == "playing"`, else stays. Fields are read from `data` when that is an object |
| `Arbitration.AfterPoll` | internal/arbiter/arbiter.go:351-424 | the state after polling one service; stated by `AfterPollEffect` |
| `Arbitration.AfterPollEffect` | internal/arbiter/arbiter.go:351-424 | polling replaces only the polled entry, and error paths never change the active service. A decoded reply after which the entry is active and unlocked, whether from the reply's fields or from stored values the reply does not mention, makes it the active service. One after which the active service's entry is inactive clears it. Nothing else changes it |
| `Arbiter.Arbiter.PollEntry` | internal/arbiter/arbiter.go:351-416 | the entry becomes the reference status-call result, and the method reports whether the body was decoded |
| `Arbiter.Arbiter.PollServiceInternal` | internal/arbiter/arbiter.go:351-424 | the method leaves the state that the reference poll describes, including the active-service tracking of lines 418-423 |
| `Arbitration.PollSweep` | internal/arbiter/arbiter.go:295-297 | the loop of status calls; keeps the registered names and is stated by `PollSweepEffect` |
| `Arbitration.PollSweepEffect` | internal/arbiter/arbiter.go:295-297 | over distinct names, every visited entry ends as one status call on its entry before the loop leaves it; the others are untouched |
| `Arbitration.LowestIndex` | internal/arbiter/arbiter.go:327-334 | the position of a lowest priority number, and the first such position |
| `Arbitration.KeepUnlocked` | internal/arbiter/arbiter.go:317-335 | the kept service is one of the unlocked ones. It is the active service when that is among them. It is the first of them when the active service is set but not among them. With no active service, it is the first with the lowest priority number |
| `Arbiter.Arbiter.UnlockedServices` | internal/arbiter/arbiter.go:306-311 | the online, unlocked services in visiting order |
| `Arbiter.Arbiter.KeepUnlockedService` | internal/arbiter/arbiter.go:317-335 | the method's running search picks the kept service as described above |
| `Arbitration.Reconciled` | internal/arbiter/arbiter.go:305-347 | the single-unlocked enforcement; stated by `ReconciledEffect`, `KeptIsFirstLowest` and `ReconciledLeavesOneUnlocked` |
| `Arbitration.ReconciledEffect` | internal/arbiter/arbiter.go:305-347 | enforcement never changes the active service. It touches only online, unlocked services, and only when there are at least two. The kept one is untouched, and each of the others gets one lock call |
| `Arbitration.KeepIsFirstLowest` | internal/arbiter/arbiter.go:317-335 | with no active service, the kept service is online and unlocked, no online unlocked service has a lower priority number, and every online unlocked service visited before it has a higher one |
| `Arbitration.KeptIsFirstLowest` | internal/arbiter/arbiter.go:305-347 | with no active service and two or more online unlocked services, enforcement leaves that first service of least priority number untouched, so the tie goes to the one Go's map order reaches first |
| `Arbiter.Arbiter.EnforceSingleUnlocked` | internal/arbiter/arbiter.go:305-347 | the method leaves the state that the reference enforcement describes |
| `Arbitration.ReconciledLeavesOneUnlocked` | internal/arbiter/arbiter.go:305-347 | when every lock call succeeds, at most one online service is left unlocked, and one is left unlocked if there was one |
| `Arbitration.PollCycle` | internal/arbiter/arbiter.go:291-301 | a poll cycle on a value of the state: the status loop, then the enforcement; stated by `PollCycleLeavesOneUnlocked` |
| `Arbiter.Arbiter.PollAllServices` | internal/arbiter/arbiter.go:291-301 | the method polls every service in one visiting order and then enforces the rule in a second, independent visiting order, as the reference poll cycle does |
| `Arbitration.PollCycleLeavesOneUnlocked` | internal/arbiter/arbiter.go:291-301 | after a poll cycle whose lock calls all succeed, at most one online service is unlocked, whatever the devices answered to the status calls and whatever the two visiting orders |

## Left out

- Concurrency: the `sync.RWMutex` and the monitoring goroutine of `StartMonitoring`/`StopMonitoring` (internal/arbiter/arbiter.go:66-91). Each public method is one atomic step, which is what the mutex gives; the ticker loop is a repetition of `PollAllServices`.
- HTTP, timeouts, `io.ReadAll` and JSON decoding are oracles (`LockNet`, `StatusNet`). A decoded status body is given as a map of JSON values. The texts of transport, read and decode errors come from the oracle as non-empty strings.
- `time.Now().Format(time.RFC3339)` is the parameter `stamps` (one check time per service, opaque strings).
- Logging.
- Arbiter.Arbiter.GetServiceStatus: returns a copy of the entry. Go returns a pointer to the live entry, which later operations keep updating; this aliasing is not modelled.
- Arbiter.Arbiter.GetAllStatus: the order of the returned statuses is the parameter `visit`, because Go's map order is unspecified.
- Loading the configuration from YAML, the default configuration, the HTTP API server and the command-line entry point. internal/config/config.go only supplies the `Service` record; the server and main are not part of this model.
