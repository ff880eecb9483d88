# History archive health check — Dafny model

This project models the history-archive health check of a Stellar Kubernetes
operator (`src/controller/archive_health.rs`). Before a validator starts, the
operator probes each configured history archive URL. It sorts the URLs into
healthy and unhealthy ones. It renders the outcome as a summary line and as
error details. Between checks it computes a capped exponential backoff.

The model has five modules, one per part of that file:

- `Text` (`text.dfy`): helpers. It writes a count in decimal, as Rust's `{}`
  does for an unsigned integer, and proves that the text reads back to the same
  number. It also models `join` of a list of lines and `contains` on strings.
- `HealthResult` (`health_result.dfy`): the `ArchiveHealthResult` record,
  `new`, `summary` and `error_details`.
- `Probe` (`probe.dfy`): `check_single_archive`. The HTTP client is replaced by
  a function `server` from a request (method and URL) to a response. A response
  is either an HTTP status or a transport failure. The module covers URL
  trimming, the two HEAD probes, the decision rule, and which requests are sent.
- `Aggregate` (`aggregate.dfy`): `check_history_archive_health`. This is an
  imperative method with the empty-input short-circuit and the loop that pushes
  each URL onto the healthy or the unhealthy list. It takes the probe results
  that `join_all` collects, one per URL in input order.
- `Backoff` (`backoff.dfy`): `calculate_backoff` on saturating unsigned
  64-bit seconds.

Points where the code differs from what a reader might expect, and which
the model follows:

- URL trimming: `trim_end_matches('/')` strips every trailing `/`, not only
  one, and so does the model (`Probe.TrimUnique`).
- Fallback method: the doc comment of `check_single_archive` says the fallback
  is a GET. The code sends a HEAD (line 95), and so does the model.
- Transport-failure reason: the text "Connection failed: …" is only logged
  (lines 106-107). The stored reason is the `to_string()` of
  `Error::HttpError` (lines 108 and 154). That `Display` text lives in
  `crate::error`, which is not part of this model. The model therefore takes
  the error-to-text conversion as a parameter `errorText`.
- Status text: "Archive returned HTTP {status}" prints the status as the HTTP
  library displays it, i.e. the code followed by its canonical reason phrase
  ("500 Internal Server Error"). A `Status` response therefore carries the
  reason phrase as an opaque string.

## Model

| member | source | states |
|---|---|---|
| `HealthResult.New` | src/controller/archive_health.rs:26-36 | keeps both lists; `allHealthy` holds iff no URL is unhealthy and at least one is healthy; `anyHealthy` holds iff at least one URL is healthy |
| `HealthResult.NewFlags` | src/controller/archive_health.rs:18-28 | all healthy implies any healthy; any-but-not-all healthy means both lists are non-empty; the empty result has both flags false |
| `HealthResult.SummaryOfNew` | src/controller/archive_health.rs:38-52 | for a result built by `new`, the summary is one of the four forms: "No archives configured", "All {h} archive(s) healthy", "{h} healthy, {u} unhealthy archive(s)", "All {u} archive(s) unhealthy", selected by which lists are empty |
| `HealthResult.SummaryEmptyIff` | src/controller/archive_health.rs:39-40 | the summary is "No archives configured" exactly when both lists are empty, for any record |
| `HealthResult.SummaryDeterminesCounts` | src/controller/archive_health.rs:38-52 | two results built by `new` with the same summary line have the same number of healthy and of unhealthy URLs; no two count pairs share a summary |
| `HealthResult.SummaryScenarios` | src/controller/archive_health.rs:217-247 | the summaries the unit tests expect: one healthy, one of each, one unhealthy, none |
| `HealthResult.ErrorDetailsEmptyIff` | src/controller/archive_health.rs:55-61 | the error details are the empty string exactly when there is no unhealthy URL |
| `HealthResult.ErrorDetailsMentions` | src/controller/archive_health.rs:55-61 | for every unhealthy entry, the details contain its line "  - {url}: {err}", and so contain its URL and its reason |
| `HealthResult.ErrorDetailsInOrder` | src/controller/archive_health.rs:55-61 | the details of two consecutive stretches of the unhealthy list are the first's details, a newline, then the second's, so lines follow list order |
| `Probe.TrimTrailingSlashes` | src/controller/archive_health.rs:70 | the trimmed URL is a prefix of the URL, does not end in '/', and only '/' characters were removed |
| `Probe.TrimIdempotent` | src/controller/archive_health.rs:70 | trimming again changes nothing |
| `Probe.TrimUnique` | src/controller/archive_health.rs:70 | the trimmed URL is the unique prefix that does not end in '/' and is followed only by slashes, so every trailing slash is removed, not just one |
| `Probe.ProbeUrls` | src/controller/archive_health.rs:70-95 | both probes are HEAD requests; the metadata URL is the trimmed URL followed by "/.well-known/stellar-history.json"; the root probe targets the trimmed URL; "u/" and "u//" probe the same base |
| `Probe.Decide` | src/controller/archive_health.rs:77-110 | `Ok` iff the metadata or the root response is a 2xx status; a non-2xx root status after a failed metadata step gives `ArchiveHealthCheckError("Archive returned HTTP {code} {reason}")`; a root transport error after a failed metadata step gives `HttpError` with its detail |
| `Probe.FallbackIgnoresMetadataFailure` | src/controller/archive_health.rs:82-95 | a non-2xx metadata status and a metadata transport error lead to the same verdict; only the root response decides |
| `Probe.StatusMessageNamesCode` | src/controller/archive_health.rs:100-101 | the status error message contains "HTTP {code}" |
| `Probe.CheckSingleArchive` | src/controller/archive_health.rs:69-111 | an archive is healthy iff the server answers the HEAD of its metadata URL or of its trimmed root with a 2xx status |
| `Probe.RequestsSent` | src/controller/archive_health.rs:77-95 | the probe sends the metadata request first and sends the root request only when the metadata step did not succeed; every request is a HEAD |
| `Probe.VerdictFromLastRequest` | src/controller/archive_health.rs:77-110 | the verdict is healthy iff the last request sent got a 2xx status |
| `Probe.ProbeScenarios` | src/controller/archive_health.rs:250-351 | the scenarios of the tests: 200 on metadata, 404 then 200, 500 on both, transport failure on both |
| `Aggregate.CheckHistoryArchiveHealth` | src/controller/archive_health.rs:125-158 | with no URLs returns the empty result without reading any probe result; otherwise returns `new` of the URLs whose probe succeeded and of the failed URLs paired with their error text, each in input order |
| `Aggregate.PartitionSizes` | src/controller/archive_health.rs:148-156 | healthy count plus unhealthy count equals the number of URLs |
| `Aggregate.PartitionMultiset` | src/controller/archive_health.rs:148-156 | the two lists together hold exactly the input URLs, with duplicates kept |
| `Aggregate.PartitionKeepsOrder` | src/controller/archive_health.rs:151-156 | both lists are subsequences of the input: they keep the input order |
| `Aggregate.PartitionMembers` | src/controller/archive_health.rs:151-156 | a URL is in the healthy list iff some position holding it probed `Ok`; an entry is in the unhealthy list iff some position holding its URL failed with an error of that text |
| `Aggregate.AggregateFlags` | src/controller/archive_health.rs:158 | the aggregate's `allHealthy` holds iff there was a URL and every probe succeeded; `anyHealthy` holds iff some probe succeeded |
| `Aggregate.HealthyIffReachable` | src/controller/archive_health.rs:140-156 | with probes run against one server, a listed URL is healthy iff its metadata file or its root answers 2xx |
| `Aggregate.StatusFailureReported` | src/controller/archive_health.rs:99-156 | when the text of an `ArchiveHealthCheckError` contains its message, an archive whose metadata step fails and whose root answers a non-2xx status is not healthy, is listed as unhealthy with a reason containing "HTTP {code}", and the error details contain its URL and "HTTP {code}", as the tests at lines 350 and 470 expect |
| `Aggregate.MixedScenario` | src/controller/archive_health.rs:407-442 | one healthy and one failing archive partition as [a] and [(b, reason)] and summarise as "1 healthy, 1 unhealthy archive(s)" |
| `Backoff.SaturatingMul` | src/controller/archive_health.rs:183 | the product when it fits in 64 bits, otherwise `u64::MAX` |
| `Backoff.CalculateBackoff` | src/controller/archive_health.rs:174-187 | the delay is at most the cap (default 300), at most `base * 2^min(attempt, 5)` (default base 15), and equal to one of the two, i.e. their minimum |
| `Backoff.BackoffMonotone` | src/controller/archive_health.rs:183-184 | the delay never decreases as the attempt number grows |
| `Backoff.BackoffConstantFromFive` | src/controller/archive_health.rs:183 | every attempt from 5 on gives the delay of attempt 5 |
| `Backoff.BackoffDoubles` | src/controller/archive_health.rs:183-184 | below attempt 5 each attempt's delay is the minimum of twice the previous delay and the cap |
| `Backoff.BackoffReachesCap` | src/controller/archive_health.rs:179-186 | when 32 times the base reaches the cap, every attempt from 5 on waits exactly the cap |
| `Backoff.DefaultSchedule` | src/controller/archive_health.rs:196-215 | with the defaults: 15, 30, 60, 120, 240, 300 seconds for attempts 0-5, and 300 at attempt 10 |

## Left out

- HTTP I/O: the reqwest requests, `Client::builder` with its user agent and
  timeout, and per-request timeouts. Responses are the values a `server`
  function returns. The 10-second default timeout is only an `Option` default
  and is not modelled.
- The client-construction failure, which is the only `Err` that
  `check_history_archive_health` can return. `Aggregate.CheckHistoryArchiveHealth`
  therefore returns the result record directly.
- Concurrency of `join_all` and the async structure. The model takes the
  collected results, one per URL in order.
- The `Display` text of the crate's error type (`crate::error` is not part of
  this model). It is the parameter `errorText`, so the model does not fix any
  stored reason. For a non-2xx status, `Aggregate.StatusFailureReported` shows
  that the reason and the error details contain "HTTP {code}" only under the
  hypothesis that the error's text contains its message (the tests at lines
  350 and 470). For a transport failure nothing is shown about the reason; in
  particular not that it mentions "HTTP", which the test at line 288 expects.
- The server answers the same request the same way every time: `server` is a
  function. The concurrent program probes a URL listed twice separately, and
  the two probes can differ (one may time out). `Aggregate.HealthyIffReachable`
  relies on this; `Aggregate.CheckHistoryArchiveHealth` takes arbitrary
  results, one per position, and does not.
- `Aggregate.JoinAll` only lays the probes against `server` out in input order;
  it stands in for `join_all` and carries no contract of its own.
- The canonical reason phrase of each HTTP status and the HTTP library's
  "<unknown status code>" fallback. The phrase is an opaque field of `Status`.
- `tracing` debug and warn logging.
- `Duration`: a delay is a whole number of seconds (`u64`), as
  `Duration::from_secs` is built from.
- `src/rest_api/mod.rs`: it only declares submodules and re-exports server and
  TLS set-up functions, with no logic of its own.
