# Load balancer core in Dafny

This project models the decision and bookkeeping layer of a small HTTP load balancer
(`balancer.py`). The balancer keeps a fixed table of backend records and one global
round-robin cursor:

- each record has a name, base URL, health flag, weight and `active`/`ok`/`fail` counters;
- it forwards every inbound request to a healthy backend, chosen by round-robin or by an
  affinity ("sticky") cookie;
- it strips hop-by-hop headers in both directions and sets `X-Forwarded-For` and
  `X-Forwarded-Proto`;
- it counts every attempt;
- it answers 503 when nothing is healthy and 502 when the upstream call fails.

A periodic monitor probes each backend's `/health` path and sets its health flag. Two
read-only endpoints report an aggregate health status and per-backend metrics.

Each request and each probe is modelled as one sequential step on the table. The files are:

- `options.dfy`: the `Option` type.
- `headers.dfy` (module `Headers`): the hop-by-hop filter, the dictionary the inbound
  headers are collapsed into, and the `X-Forwarded-For`/`X-Forwarded-Proto` rewrite.
- `registry.dfy` (module `Registry`): the backend record, the configured table and
  constants, the healthy list, and the effect of one health probe.
- `selection.dfy` (module `Selection`): round-robin and sticky selection as functions of
  the table and cursor, plus what repeated selections do.
  - Round-robin fairness: each healthy backend is chosen between floor(n/k) and
    ceil(n/k) times.
  - Sticky repetition: a cookie naming a healthy backend keeps selecting it.
- `control.dfy` (module `Control`): the `/health` aggregate and the `/metrics` projection.
- `pipeline.dfy` (module `Pipeline`): one proxied request as a function from table, cursor,
  request and upstream outcome to the new table, new cursor, forwarded request and response.
- `balancer.dfy` (module `Balancer`): the class `LoadBalancer`. It holds the table and the
  cursor as fields. Its methods update them step by step the way the source does: the
  cursor, the in-flight count raised and lowered around the call, and the health flag.
  Each method is proved equal to the corresponding specification function.

Backends are identified by their index in the table, so "the backend returned" is an index.
The configured sticky cookie name is an `Option<string>`, and stickiness is on exactly when
it is present and non-empty (Python truthiness of `STICKY_COOKIE`). The upstream call is an
abstract outcome: either an answer (status, headers, payload) or a network failure.

Two behaviours of the code are modelled exactly as written:

- Round-robin indexes the healthy list with the cursor's current value, and only then
  increments the cursor (balancer.py:45-46). Round-robin fairness is stated for that order.
- The prior `X-Forwarded-For` value is looked up by its exact spelling (balancer.py:78). The
  dictionary built at balancer.py:75 keeps each key in the client's own spelling. A client
  that sends `x-forwarded-for` therefore gets a second key rather than an extended one.
  `Headers.LowerCaseForwardedForNotExtended` states this.

## Model

| member | source | states |
|---|---|---|
| Headers.FilterHeaders | balancer.py:75 | no contract of its own: the comprehension that drops hop-by-hop headers, characterised by `Headers.FilterHeadersMembers`, `Headers.FilterHeadersConcat`, `Headers.FilterHeadersKeepsClean` and `Headers.FilterHeadersIdempotent` |
| Headers.FilterHeadersMembers | balancer.py:18-21 | a header survives filtering exactly when it was in the list and its name, lower-cased, is not in the hop-by-hop set; filtering never lengthens the list |
| Headers.FilterHeadersConcat | balancer.py:86 | filtering distributes over concatenation, so kept headers keep their relative order |
| Headers.FilterHeadersKeepsClean | balancer.py:86 | a list with no hop-by-hop header is relayed unchanged |
| Headers.FilterHeadersIdempotent | balancer.py:86 | filtering an already filtered list changes nothing |
| Headers.Lookup | balancer.py:78 | no contract of its own: the dictionary lookup (`headers.get`) read off the header list, characterised by `Headers.LookupSpec`, `Headers.ToDictLookup` and `Headers.LookupFiltered` |
| Headers.ToDict | balancer.py:75 | no contract of its own: the dictionary the comprehension builds, characterised by `Headers.ToDictLookup` |
| Headers.LookupSpec | balancer.py:75 | a dictionary lookup of a name finds nothing exactly when no header has that exact name, and otherwise finds the value of the last such header |
| Headers.ToDictLookup | balancer.py:75 | the dictionary built from the header list holds a name exactly when the list has it, and maps it to the last value given |
| Headers.LookupAppend | balancer.py:75 | appending a header makes its value the one a lookup of its name returns, and leaves every other name's lookup unchanged |
| Headers.LookupFiltered | balancer.py:75 | a lookup in the filtered list gives nothing for a hop-by-hop name and the original lookup for any other name |
| Headers.ForwardingKeysNotHopByHop | balancer.py:78-80 | neither X-Forwarded-For nor X-Forwarded-Proto is a hop-by-hop name |
| Headers.ForwardedFor | balancer.py:78-79 | the client address always ends the value; a non-empty prior value is kept as a prefix, followed by the two characters ", " and then the address; with no prior value or an empty one the value is the address alone |
| Headers.ForwardRequestHeaders | balancer.py:74-80 | no contract of its own: the headers sent upstream, characterised by `Headers.ForwardRequestHeadersSpec` and `Headers.LowerCaseForwardedForNotExtended` |
| Headers.FilteredDict | balancer.py:75 | a name is in the dictionary built from the filtered list exactly when it arrived and is not hop-by-hop, and maps to its last value |
| Headers.ForwardRequestHeadersSpec | balancer.py:74-80 | the forwarded headers hold no hop-by-hop name; every other inbound name is present exactly when it arrived, with its last value; X-Forwarded-For is the rewrite of the prior exact-spelling value; X-Forwarded-Proto is the scheme |
| Headers.LowerCaseForwardedForNotExtended | balancer.py:75-79 | a lower-case x-forwarded-for header is kept under its own key and X-Forwarded-For holds only the client address |
| Registry.HealthyIndices | balancer.py:42 | the healthy list holds only indices of healthy backends |
| Registry.HealthyIndicesComplete | balancer.py:42 | every healthy backend is in the healthy list |
| Registry.HealthyIndicesEmpty | balancer.py:42-44 | the healthy list is empty exactly when no backend is healthy |
| Registry.HealthyIndicesSorted | balancer.py:42 | the healthy list is strictly increasing, i.e. in table order without repeats |
| Registry.HealthyIndicesOnlyHealth | balancer.py:42 | two tables that agree on every health flag have the same healthy list, whatever their counters |
| Registry.AnyHealthy | balancer.py:116 | true exactly when some backend is healthy |
| Registry.AnyHealthyIffHealthyIndices | balancer.py:116 | `any` over the health flags agrees with the healthy list being non-empty |
| Registry.ProbeHealthy | balancer.py:31-36 | a probe leaves the backend healthy exactly when it answered status 200; an error leaves it unhealthy |
| Registry.AfterProbe | balancer.py:34-36 | recording a probe sets the probed backend's flag to status==200 and changes nothing else in the table |
| Registry.FailedProbeExcludes | balancer.py:34-36 | after a failed probe the backend is out of the healthy list and every other backend's membership is unchanged |
| Selection.PickRR | balancer.py:39-47 | no choice exactly when no backend is healthy, with the cursor unchanged; otherwise a healthy backend, with the cursor advanced by one |
| Selection.FirstNamed | balancer.py:55-57 | no contract of its own: the scan of the healthy list for the cookie's name, characterised by `Selection.FirstNamedSpec` and `Selection.FirstNamedHealthy` |
| Selection.FirstNamedSpec | balancer.py:55-57 | the scan of a list for a name finds nothing exactly when no entry has it, and otherwise returns the first entry that has it |
| Selection.FirstNamedHealthy | balancer.py:51-57 | the scan of the healthy list returns the first healthy backend in table order with that name, and nothing exactly when no healthy backend has it |
| Selection.StickyMatch | balancer.py:54-57 | nothing exactly when no healthy backend has the name; otherwise a healthy backend with that name, with no earlier healthy one sharing it |
| Selection.FindSticky | balancer.py:55-57 | the loop over the healthy list returns exactly the sticky match |
| Selection.PickSticky | balancer.py:49-58 | no choice exactly when no backend is healthy, with the cursor unchanged; otherwise a healthy backend |
| Selection.StickyHonoursCookie | balancer.py:54-57 | a non-empty cookie naming a healthy backend selects a healthy backend of that name, no later than it in the table, and the cursor does not move |
| Selection.StickyFallsBackToRR | balancer.py:49-58 | with a cookie that is absent, empty, or names no healthy backend, sticky selection equals round-robin, including its empty result |
| Selection.Select | balancer.py:65-66 | under either policy: no choice exactly when nothing is healthy, the cursor unchanged then, and otherwise a healthy choice |
| Selection.RepeatRoundRobinHead | balancer.py:45-46 | a run of round-robin selections starts with the backend at the current cursor and continues from the next cursor value |
| Selection.RoundRobinRotates | balancer.py:42-46 | n consecutive round-robin selections pick positions cursor, cursor+1, … of the healthy list modulo its length, and advance the cursor by n |
| Selection.RoundRobinCount | balancer.py:45 | in n consecutive selections, the healthy backend at position j is chosen once for each cursor value congruent to j |
| Selection.ResidueBounds | balancer.py:45 | among n consecutive cursor values each residue modulo k occurs at least floor(n/k) and at most ceil(n/k) times |
| Selection.RoundRobinFair | balancer.py:42-46 | over n consecutive round-robin selections on a fixed table with k healthy backends, each healthy backend is chosen at least floor(n/k) and at most ceil(n/k) times |
| Selection.StickyRepeatsChoice | balancer.py:54-57 | any number of requests with a cookie naming a healthy backend all select the same sticky match and never move the cursor |
| Control.Health | balancer.py:115-117 | the report is "ok" exactly when some backend is healthy, "degraded" otherwise |
| Control.HealthOkIffSelectable | balancer.py:115-117 | the report is "ok" exactly when a request would be given a backend, under either policy |
| Control.Snapshot | balancer.py:110 | a metrics entry has exactly the keys name, url, healthy, active, ok, fail and weight |
| Control.Metrics | balancer.py:107-113 | one entry per backend in table order, each with exactly the seven keys, from which the backend record is read back unchanged |
| Control.SnapshotInjective | balancer.py:110 | different records give different metrics entries |
| Pipeline.CookieChoice | balancer.py:65 | no contract of its own: the sticky cookie's value when stickiness is on and the cookie was sent, otherwise nothing; used by `Pipeline.StickyCookieDecision` and `Pipeline.StickyFailover` |
| Pipeline.PolicyFor | balancer.py:66 | no contract of its own: sticky selection with the presented value when stickiness is on, round-robin otherwise; `Balancer.LoadBalancer.Choose` is proved against it |
| Pipeline.ClientIp | balancer.py:76-77 | no contract of its own: the peer address when known, "unknown" otherwise |
| Pipeline.StickyCookieFor | balancer.py:94-95 | a cookie is issued exactly when stickiness is on and the presented value is not the serving backend's name; it carries the configured name, that backend's name, max-age 600 and path "/" |
| Pipeline.Record | balancer.py:90-101 | no contract of its own: the counters after an attempt, characterised by `Pipeline.RecordBookkeeping` and `Pipeline.RecordTotals` |
| Pipeline.Outbound | balancer.py:72-85 | no contract of its own: the request sent to the chosen backend, characterised by `Pipeline.DispatchBookkeeping` (target, verb, body) and `Headers.ForwardRequestHeadersSpec` (headers) |
| Pipeline.Reply | balancer.py:86-102 | no contract of its own: the client's response, characterised by `Pipeline.DispatchBookkeeping`, `Pipeline.RelayedResponseFiltered` and `Pipeline.StickyCookieDecision` |
| Pipeline.Handle | balancer.py:61-104 | no contract of its own: one proxied request, characterised by `Pipeline.NoBackendChangesNothing`, `Pipeline.DispatchBookkeeping`, `Pipeline.RelayedResponseFiltered`, `Pipeline.StickyCookieDecision`, `Pipeline.StickyFailover` and `Pipeline.SingleHealthyStep`; `Balancer.LoadBalancer.Proxy` is proved equal to it |
| Pipeline.NoBackendChangesNothing | balancer.py:66-68 | the request is answered 503 exactly when no backend is healthy, and then nothing is sent and the table and cursor are unchanged |
| Pipeline.TotalsUpdate | balancer.py:90-101 | replacing one record changes the table's ok and fail totals by exactly that record's change |
| Pipeline.RecordBookkeeping | balancer.py:90-101 | recording an attempt changes only the chosen record: ok grows by one on an answer, fail by one on a network failure, and names, URLs, weights, health flags and in-flight counts stay as they were |
| Pipeline.RecordTotals | balancer.py:90-101 | each attempt raises exactly one of the total ok and total fail counts, by one |
| Pipeline.DispatchBookkeeping | balancer.py:66-104 | with a healthy backend the request goes to a healthy backend at its URL plus the path and query, with verb and body unchanged; the counters move as recorded; the client gets 502 on failure and the upstream status otherwise, with the serving backend named |
| Pipeline.RelayedResponseFiltered | balancer.py:86-91 | the relayed response has no hop-by-hop header, keeps the other upstream headers in order, and passes status and payload through |
| Pipeline.StickyCookieDecision | balancer.py:94-95 | a relayed response carries a cookie exactly when stickiness is on and the presented value differs from the serving backend's name; the cookie names that backend, with max-age 600 |
| Pipeline.StickyFailover | balancer.py:49-58 | a cookie naming no healthy backend leads to the round-robin choice with the cursor advanced, and the response re-issues the cookie for the backend that served it |
| Pipeline.SingleHealthyStep | balancer.py:61-104 | with exactly one healthy backend, that backend serves the request, only its counters move, and it stays the only healthy one, so every following request goes to it too |
| Balancer.LoadBalancer.constructor | balancer.py:6-15 | a table of records with no request in flight, cursor 0, and the given sticky cookie name |
| Balancer.LoadBalancer.Default | balancer.py:6-15 | the configured two-backend table, cursor 0, and sticky cookie LB_NODE |
| Balancer.LoadBalancer.PickBackendRR | balancer.py:39-47 | the round-robin method agrees with `PickRR`: no choice and the cursor unchanged when nothing is healthy; otherwise the healthy backend at the cursor's position in the healthy list, with the cursor incremented |
| Balancer.LoadBalancer.PickBackendSticky | balancer.py:49-58 | the sticky method agrees with `PickSticky` on both the choice and the new cursor |
| Balancer.LoadBalancer.Choose | balancer.py:65-66 | selection by the configured policy agrees with `Select` |
| Balancer.LoadBalancer.Count | balancer.py:70-104 | raising the in-flight count, counting ok or fail, and lowering the in-flight count leave exactly the recorded table, with the in-flight count back at its old value |
| Balancer.LoadBalancer.Proxy | balancer.py:61-104 | one request changes the table and cursor, and produces the forwarded request and response, exactly as `Handle` says; between requests no request is in flight |
| Balancer.LoadBalancer.CheckBackend | balancer.py:31-36 | recording a probe leaves exactly `AfterProbe` of the old table |
| Balancer.LoadBalancer.HealthCycle | balancer.py:27-28 | one round of probes sets every backend's flag from its own probe and changes nothing else |

## Left out

- Network I/O: the upstream HTTP call, the probe's request to the backend URL plus
  `/health`, reading the request body and the upstream payload, the 10-second timeouts
  and the server start-up. The upstream call is an abstract `Upstream` outcome and
  the body is a parameter.
- The health monitor's scheduling: the endless loop, the concurrent gathering of probes and
  the sleep between rounds. `HealthCycle` applies one round of given probe results in
  table order.
- Concurrency: requests and probes run as interleaved tasks in the source and mutate the
  shared records without synchronisation. The model treats each as one atomic step, so the
  in-flight count is 0 between steps and only `Count` shows it raised.
- Wall-clock timing: the `X-LB-Duration-ms` header and the duration arithmetic.
- Header merging into the response's multidict: `X-LB-Backend` is the `servedBy` field of
  `Relayed`, and `X-LB-Duration-ms` is omitted.
- The response header list is the filtered upstream list. Its case-insensitive multidict
  semantics are not modelled.
- Peer-address lookup through the transport: it is the `peer` parameter, and "unknown" is
  used when it is absent.
- JSON encoding of the 503, 502, health and metrics bodies, and route registration.
- Lower-casing of header names: ASCII only, where Python's `str.lower` also folds
  non-ASCII letters.
- Handle: an exception raised after line 90 (while the response is built) would count both
  ok and fail and answer 502. The model treats building the response as infallible, so
  every answered upstream call counts as one ok.
- Pipeline.Outcome: on a failed upstream call the `sent` field still holds the request the
  proxy attempted. The model does not say how much of it reached the backend: the transport,
  the body read or the connection may have failed first.
- `weight` is carried and reported but, as in the source, never used for selection.
- `backend.py` (the demo upstream server) is not part of this model.
