# cfddns: a Dafny model of a Cloudflare dynamic-DNS updater

The modelled program is a small daemon. It keeps one or more Cloudflare DNS
"A" records pointed at the host's current public IP address. At startup it
reads its configuration from the environment:

- a bearer token `CF_API_TOKEN`;
- record descriptors `DNS_RECORD_0`, `DNS_RECORD_1`, ..., each of the form
  `zone_id:record_id:name`;
- an optional `INTERVAL`.

Then it runs the same cycle forever:

1. Get the public IP.
2. For each configured record, in order, read the record's stored content.
3. If that content differs from the public IP, overwrite the record.
4. Sleep.

The model covers the two deterministic parts of `app.py`:

- **`Configuration`** (`configuration.dfy`) models `get_env`. The environment
  is a `map<string, string>`. The method `GetEnv` follows the source's
  `while True` loop. The loop goes through `DNS_RECORD_<i>` until the first
  absent index and adds each parsed descriptor to a list. The method is
  proved equal to the specification function `LoadConfig`. Where the
  program prints a diagnostic and calls `sys.exit(1)`, the model returns an
  error instead: `MissingToken`, `InvalidRecord(i)` or `NoRecords`. The
  lemma `LoadConfigSpec` describes `LoadConfig` without referring to the
  loop. It uses the first absent index (`FirstGap`) and the first index
  whose descriptor is rejected.
- **`Reconcile`** (`reconcile.dfy`) models one pass of the `while True` loop
  in `main`. The outcomes of the network calls are inputs:
  - the public IP: `Done(ip)` or `Failed(reason)`;
  - for the record at each position, the read and the write outcome.

  The method `RunCycle` follows the source's `for` loop, including its
  `continue`. It returns the ordered trace of what the cycle does: reads,
  write requests (the `update_dns` payload) and log events. It is proved
  equal to the function `CycleTrace`. The lemmas then prove the following:
  an IP failure skips all record work; every record is read, in order; a
  write happens exactly when the read succeeded with a different value;
  every write carries the full payload; and a failure on one record leaves
  every other record's part of the trace unchanged.
- **`Text`** (`text.dfy`) holds Python's `str.split(":")` and its inverse
  `join`, and `str(i)` for the variable names. It also proves that decimal
  rendering can be parsed back. That makes the `DNS_RECORD_<i>` names
  pairwise distinct, so the enumeration terminates: it can visit at most
  as many indices as the environment has variables.

Points of the program's behaviour worth noting, all kept by the model:

- The token check is Python truthiness, so an empty `CF_API_TOKEN` is
  rejected just like a missing one.
- The interval is never checked for being positive.
- The read-failure log line names Cloudflare. Log wording is not modelled.
- The public-IP response is trimmed inside `get_public_ip`, which is not
  modelled. The IP outcome given to `RunCycle` is the already-trimmed
  value.

## Model

| member | source | states |
|---|---|---|
| `Text.Split` | app.py:21 | Python's `val.split(":")`: the pieces between separators, one empty piece for the empty string, an empty piece at a leading or trailing ':'; the result is never an empty list |
| `Text.NatToString` | app.py:18 | the decimal text of `i` in `f"DNS_RECORD_{i}"`; it is never empty |
| `Configuration.HasToken` | app.py:10-11 | Python's truthiness test on `os.environ.get("CF_API_TOKEN")`: true iff the lookup finds a value and that value is non-empty |
| `Configuration.RecordKey` | app.py:18 | the variable looked up for index i: `DNS_RECORD_` followed by a non-empty suffix, the decimal text of i |
| `Configuration.CollectRecords` | app.py:15-26 | the enumeration from index i: on success every collected record is well formed, and the list is non-empty iff `DNS_RECORD_<i>` is present; a failure is always `InvalidRecord(j)` for a present index j >= i |
| `Configuration.LoadConfig` | app.py:9-36 | `get_env` as a function: a loaded config carries the environment's non-empty token, at least one record, every record well formed, and `DNS_RECORD_0` is present |
| `Reconcile.UpdatePayload` | app.py:63-76 | the request `update_dns` sends: it goes to the same zone and record, with the same token, as that record's read, and carries the record's name and the current IP as content |
| `Reconcile.NeedsUpdate` | app.py:106-115 | the overwrite condition: only a successful read whose content is not the current IP lets a write through |
| `Reconcile.RecordTrace` | app.py:106-119 | one record's step starts with its read, followed by a log line, and has between 2 and 4 actions |
| `Reconcile.RecordsTrace` | app.py:101-119 | the records processed one after another; n records give between 2n and 4n actions |
| `Reconcile.CycleTrace` | app.py:93-119 | a cycle: a single log line when the public IP cannot be obtained, otherwise between 2 and 4 actions per configured record |
| `Text.JoinSplit` | app.py:21 | joining the parts of `s.split(":")` with ':' gives `s` back, and no part contains ':' |
| `Text.SplitJoin` | app.py:21 | splitting a ':'-join of colon-free parts gives exactly those parts |
| `Text.ParseNatToString` | app.py:18 | the decimal rendering used in `f"DNS_RECORD_{i}"` reads back to `i` |
| `Text.NatToStringInjective` | app.py:18 | distinct indices render to distinct decimal strings |
| `Configuration.RecordKeyInjective` | app.py:18 | distinct indices name distinct `DNS_RECORD_<i>` variables |
| `Configuration.KeysBound` | app.py:15-26 | if `DNS_RECORD_0` .. `DNS_RECORD_<n-1>` are all present, the environment has at least n variables, so the enumeration ends |
| `Configuration.FirstGap` | app.py:16-20 | the result is the first index whose variable is absent: every lower index is present |
| `Configuration.ParseDescriptor` | app.py:21-25 | an accepted descriptor yields a record whose three fields are non-empty and contain no ':' |
| `Configuration.DescriptorRoundTrip` | app.py:21-25 | a descriptor is accepted and yields record r iff r is well formed and the descriptor is exactly `zone_id:record_id:name` of r |
| `Configuration.MalformedDescriptors` | app.py:21-24 | `""`, `"a:b"`, `"a::c"` and `"a:b:c:d"` are rejected |
| `Configuration.GetEnv` | app.py:9-36 | the loop-based loader returns exactly `LoadConfig(env)`: the token check, the enumeration up to the first gap, the empty-list check and the interval default |
| `Configuration.CollectSucceedsIff` | app.py:15-26 | enumeration from index i succeeds iff every descriptor from i up to the first absent index is accepted |
| `Configuration.CollectedRecords` | app.py:15-26 | a successful enumeration returns one record per index up to the first gap, each parsed from its own descriptor, in index order |
| `Configuration.CollectFailure` | app.py:21-24 | a failed enumeration reports the first index whose descriptor is rejected, and that index lies before the first gap |
| `Configuration.CollectRecordsSpec` | app.py:15-26 | the three facts above, together |
| `Configuration.LoadConfigSpec` | app.py:9-36 | token missing or empty iff `MissingToken`; `NoRecords` iff the token is present and `DNS_RECORD_0` is absent; success iff the token is present, at least one record exists and all descriptors before the gap are accepted; an `InvalidRecord(i)` error names the first rejected index, with the token present; on success, the config holds the token, at least one record, the records of indices 0 .. gap-1 in order, and `INTERVAL` or `"300"` |
| `Configuration.EmptyDescriptorIsError` | app.py:18-24 | a present but empty `DNS_RECORD_<i>` after accepted ones is a format error at i, not the end of the list |
| `Configuration.LaterIndicesIgnored` | app.py:16-20 | environments that agree on the token, the interval and the descriptors up to and including the first gap load to the same result |
| `Configuration.GapStopsEnumeration` | app.py:16-26 | with index 0 valid and index 1 absent, loading succeeds with that one record and the default interval, whatever index 2 holds |
| `Configuration.MissingFirstRecord` | app.py:28-30 | a present token and no `DNS_RECORD_0` give `NoRecords` |
| `Reconcile.RunCycle` | app.py:93-119 | the loop-based cycle returns exactly `CycleTrace`: only the IP failure if the IP lookup fails, otherwise each record's read, verdict and write in configuration order |
| `Reconcile.RecordActions` | app.py:106-119 | each record is read exactly once; it is written once with `UpdatePayload(token, rec, ip)` iff its read succeeded with content other than the IP, and otherwise not at all |
| `Reconcile.RecordEvents` | app.py:106-119 | a record's log is its read failure, or `Unchanged(name, ip)` on equality, or `Updating(name, old, ip)` followed by `WriteFailed` only when the write failed |
| `Reconcile.DecomposeAt` | app.py:101-119 | the trace is the records before i, then record i's own trace, then the records after i |
| `Reconcile.FaultIsolation` | app.py:101-119 | changing the responses of record i (a failed read or write) changes only record i's part of the trace |
| `Reconcile.EveryRecordRead` | app.py:101-110 | every configured record is read, once and in configuration order, whatever the other reads and writes return |
| `Reconcile.WritesAreExpected` | app.py:112-119 | the writes of a cycle are exactly one payload per record whose read succeeded with a different value, in configuration order; write failures cancel no later write |
| `Reconcile.ExpectedWritesMembers` | app.py:69-76 | every write has type "A", content equal to the public IP, ttl 120, proxied true, the token, and the zone id, record id and name of a record that needs updating; every such record's payload is among the writes |
| `Reconcile.IpFailureSkipsRecords` | app.py:93-98 | when the public IP cannot be obtained the cycle reads nothing, writes nothing and logs only that failure |
| `Reconcile.CycleActions` | app.py:93-119 | with the IP obtained, the cycle reads every record in order and issues exactly the expected writes |
| `Reconcile.ScenarioUnchanged` | app.py:112-113 | provider and resolver both report 1.2.3.4: the record is read, "unchanged" is logged, there is no write |
| `Reconcile.ScenarioUpdated` | app.py:114-117 | provider reports 1.2.3.4 and resolver 5.6.7.8: "updating" is logged and one write with 5.6.7.8 follows |
| `Reconcile.ScenarioReadFailureIsolated` | app.py:106-117 | the first record's read fails and the second is stale: the failure is logged and the second record is still updated, with one write in all |

## Left out

- HTTP calls (`get_public_ip`, `get_dns_ip` and the `requests.put` in `update_dns`): these are foreign calls. Their results are the `Outcome` inputs of a cycle. Which exceptions they raise, and the JSON path `result.content`, are not modelled.
- The `.strip()` of the public-IP response: it happens inside the left-out `get_public_ip`.
- The infinite `while True` loop and `time.sleep(interval)`: the model covers one cycle. No state passes between cycles except the fixed configuration, so a run is a sequence of independent cycles.
- The write's `comment` field and the unused `next_check`: both depend on the clock and are informational only. The timestamp prefix of the log lines is left out for the same reason.
- Log wording, and the printing to stdout and stderr, including the startup banner listing record names and the interval: log lines are abstract `Event` values.
- `int(...)` on `INTERVAL`: the model keeps the text the program converts, `"300"` by default. Python's conversion, and the uncaught `ValueError` for a non-integer, are not modelled.
- Process exit: `sys.exit(1)` is a `ConfigError` result.
- The body each write returns: `update_dns` returns parsed JSON that the cycle ignores, so a write's outcome is only success or failure.
