# Bloxstrap telemetry service, modelled in Dafny

Bloxstrap.Services is the small web service that the Bloxstrap launcher reports to. This project models its core:

- **The metric schema.** A StatPoint is a metric name, an optional closed list of accepted values, a primary bucket and a public bucket. The controller keeps a registry of two metrics: `installAction`, a closed list written to `bloxstrap-90d`, and `robloxChannel`, an open metric written to `bloxstrap-14d` and, for public channels, also to `bloxstrap-14d-public`.
- **The beacon endpoint** (`GET /metrics/post?key=..&value=..`). It checks, in order:
  - that key and value are both present and non-empty;
  - that the key is a known metric;
  - that the value is in the closed list, where the metric has one.

  A channel value is then lower-cased and must start with `z`. Next comes a cached existence check: an outbound GET whose success status means the channel exists. For a channel that exists, a cached visibility check follows. The beacon is then written as one time-series point per destination bucket. In the Development environment every write goes to `test-bucket` instead.
- **The crash-trace endpoint** (`POST /metrics/post-exception`). An empty body gets 400. A body of 51200 UTF-16 code units or more gets 413. Any other body is stored as one row of `exception_reports`.
- **The validation cache.** A live entry is returned as it is, a cached `false` included, with no outbound call. A miss makes exactly one GET and stores its success flag, for a day (existence) or for thirty minutes (visibility).
- **The request pipeline in front of the controller.**
  - A fixed-window rate limiter runs first: 10 permits per hour per remote address, and a refused request gets 429.
  - An identity filter runs next. It looks only at the first `User-Agent` value, searches it without anchors for `Bloxstrap/<version> (<qualifier>)`, and admits the request only when the leftmost match's qualifier is `Production`. The whole header value is then recorded as the client version tag.

How the model is built:

- **Pure logic** (the schema, the screening, the regular expression, the limiter's window arithmetic, the cache's answer) is written as functions with lemmas about them.
- **State the service updates** is written as classes whose methods are proved against those functions. This covers the limiter's partitions, the memory cache, the point store, the report table, the controller and the pipeline.
- **The regular expression** is a deterministic scanner (`UserAgent.MatchAt`, `UserAgent.LeftmostMatch`). It is proved sound and complete against a declarative reading of the pattern (`UserAgent.IsMatch`).
- **Outside effects are parameters.**
  - The clock is a parameter `now` (seconds).
  - The remote service is a parameter `get: string -> bool`: whether a GET of that URL answered with a success status.
  - The stores are sequences of the writes and rows they received.

## Model

| member | source | states |
|---|---|---|
| Http.Code | Bloxstrap.Services/Program.cs:48 | 200 only for success and a 4xx code for every refusal. 429 is exactly the limiter's rejection, and 413 exactly the oversized trace. |
| StatPoints.NewStatPoint | Bloxstrap.Services/Models/StatPoint.cs:3-12 | A StatPoint built from a name alone is open (no value list), and both of its buckets default to `bloxstrap`. |
| StatPoints.Find | Bloxstrap.Services/Controllers/MetricsController.cs:58 | `List.Find` returns the first definition with that name, none further left has it, and it returns None exactly when no definition has it. |
| StatPoints.RegistryNamesUnique | Bloxstrap.Services/Controllers/MetricsController.cs:21-36 | No two registry entries share a name. |
| StatPoints.FindInRegistry | Bloxstrap.Services/Controllers/MetricsController.cs:21-36 | Looking up a key gives the installAction entry, the robloxChannel entry, or nothing for any other key. |
| StatPoints.InstallActionSchema | Bloxstrap.Services/Controllers/MetricsController.cs:23-28 | installAction writes to `bloxstrap-90d` and admits exactly `install`, `upgrade` and `uninstall`. |
| StatPoints.RobloxChannelSchema | Bloxstrap.Services/Controllers/MetricsController.cs:30-35 | robloxChannel admits every value and writes to `bloxstrap-14d`, with `bloxstrap-14d-public` as its public bucket. |
| StatPoints.UnknownKeys | Bloxstrap.Services/Controllers/MetricsController.cs:58 | Every key other than the two metric names is unknown. |
| RateLimiting.Current | Bloxstrap.Services/Program.cs:50-57 | The window in force is still open at the request's time. An open window is kept as it is; it is replaced by a fresh one opened at that time, with no permits used, exactly when the partition is new or its hour has elapsed. |
| RateLimiting.Acquire | Bloxstrap.Services/Program.cs:50-57 | A request takes a permit iff the current window has used fewer than 10. The window keeps its start, its count rises by one exactly when the request is admitted, and it never goes past 10. |
| RateLimiting.AcquirePreserves | Bloxstrap.Services/Program.cs:50-57 | A request is admitted iff fewer than 10 requests were admitted since the current window opened. The window's count stays equal to the number of admissions since its start and never exceeds 10. |
| RateLimiting.FullWindowRejects | Bloxstrap.Services/Program.cs:54-55 | A window that has handed out 10 permits rejects every request until the hour is over. |
| RateLimiting.ElapsedWindowAdmits | Bloxstrap.Services/Program.cs:55 | Once the hour has elapsed, the next request opens a fresh window and is admitted as its first. |
| RateLimiting.FixedWindowLimiter.constructor | Bloxstrap.Services/Program.cs:50-57 | The limiter starts with no partitions and consistent bookkeeping. |
| RateLimiting.FixedWindowLimiter.TryAcquire | Bloxstrap.Services/Program.cs:50-57 | It admits iff the caller's partition has admitted fewer than 10 requests in its current window. Only that partition's window changes, the admission log grows by the admitted time, and the bookkeeping stays consistent. |
| ValidationCache.Consult | Bloxstrap.Services/Controllers/MetricsController.cs:38-50 | One consultation makes at most one GET, and none exactly when the key is live. Afterwards the key is stored with the answer returned, and it is live when the time-to-live is positive. |
| ValidationCache.HitMakesNoCall | Bloxstrap.Services/Controllers/MetricsController.cs:40-49 | A live entry is returned as it is, `false` included, with no GET and the cache unchanged. |
| ValidationCache.MissMakesOneCall | Bloxstrap.Services/Controllers/MetricsController.cs:40-47 | A miss makes exactly one GET, to the URL, and returns its success flag. The flag is stored under the key for the time-to-live, and no other key changes. |
| ValidationCache.RepeatWithinTtl | Bloxstrap.Services/Controllers/MetricsController.cs:38-50 | Asking again for the same key before the entry expires gives the same answer and makes no GET, even if the remote has changed. |
| ValidationCache.MemoryCache.constructor | Bloxstrap.Services/Controllers/MetricsController.cs:17 | The shared cache starts empty, with no GETs issued. |
| ValidationCache.MemoryCache.IsHttpRequestSuccessCached | Bloxstrap.Services/Controllers/MetricsController.cs:38-50 | The answer and the new cache are those of the cache semantics. A hit leaves the count of GETs unchanged; a miss adds exactly one GET, to the URL, and returns its result. |
| Metrics.ToLowerInvariant | Bloxstrap.Services/Controllers/MetricsController.cs:67 | Lower-casing keeps the length and maps each character independently. |
| Metrics.SentinelIgnoresCase | Bloxstrap.Services/Controllers/MetricsController.cs:67-69 | The lower-cased value starts with `z` iff the original value starts with `z` or `Z`. |
| Metrics.Screen | Bloxstrap.Services/Controllers/MetricsController.cs:55-70 | A beacon that passes the checks made before any outbound call has a key and a value, and its definition is the one named by the key. |
| Metrics.ScreenByKey | Bloxstrap.Services/Controllers/MetricsController.cs:55-70 | Screening, metric by metric: an empty input fails; installAction passes with the raw value iff it is in the list; robloxChannel passes with the lower-cased value iff that starts with `z`; any other key fails. |
| Metrics.Destinations | Bloxstrap.Services/Controllers/MetricsController.cs:63-103 | Outside Development: the primary bucket, followed by the public bucket exactly when the channel is public. In Development: `test-bucket` alone. |
| Metrics.FieldFor | Bloxstrap.Services/Controllers/MetricsController.cs:67 | The written field has the value's length. It is the value itself for every metric but the channel; for the channel it is the value lower-cased character by character, so it holds no upper-case ASCII letter. |
| Metrics.WritesOf | Bloxstrap.Services/Controllers/MetricsController.cs:105-106 | The writes are one per bucket, in bucket order, each carrying the same point. |
| Metrics.CheckChannel | Bloxstrap.Services/Controllers/MetricsController.cs:72-91 | A channel is public only if it exists. A nonexistent channel costs at most one GET and an existing one at most two, each to the existence URL or the visibility URL. |
| Metrics.CachedChannelMakesNoCall | Bloxstrap.Services/Controllers/MetricsController.cs:72-88 | With live cached answers, the checks make no GET, leave the cache as it is and repeat the cached answers. |
| Metrics.ColdChannelAsksRemote | Bloxstrap.Services/Controllers/MetricsController.cs:72-88 | With an empty cache, the channel exists iff its existence GET succeeds. It is public iff it exists and its visibility GET succeeds. The existence answer is stored under `channel-{v}-valid` for a day. For an existing channel the visibility answer is stored under `channel-{v}-public` for 30 minutes; otherwise that key is never written. |
| Metrics.PostOutcome | Bloxstrap.Services/Controllers/MetricsController.cs:52-109 | A beacon ends in 200 or 400, and a 400 writes nothing. A beacon refused before any outbound call leaves the cache as it is and makes no GET. |
| Metrics.EmptyInputRejected | Bloxstrap.Services/Controllers/MetricsController.cs:55-56 | A null or empty key or value gets 400, with no write, no GET and no change to the cache. |
| Metrics.UnknownKeyRejected | Bloxstrap.Services/Controllers/MetricsController.cs:58-61 | An unknown key gets 400 whatever the value, with no write and no GET. |
| Metrics.InstallActionOutcome | Bloxstrap.Services/Controllers/MetricsController.cs:58-108 | installAction succeeds iff the value is `install`, `upgrade` or `uninstall`, and it never calls out. On success it writes the raw value once, to `bloxstrap-90d` (or `test-bucket` in Development); on refusal it writes nothing. |
| Metrics.ChannelWithoutSentinelRejected | Bloxstrap.Services/Controllers/MetricsController.cs:65-70 | A channel value starting with neither `z` nor `Z` gets 400 with no GET and no write. |
| Metrics.ChannelScreened | Bloxstrap.Services/Controllers/MetricsController.cs:65-70 | A channel value starting with `z` or `Z` passes screening, lower-cased, under the channel metric. |
| Metrics.ChannelOutcome | Bloxstrap.Services/Controllers/MetricsController.cs:65-108 | For a channel past the sentinel, the beacon succeeds iff the existence check passes. Its cache and GETs are those of the two checks, and it writes the lower-cased field to the metric's destinations, the public bucket included iff the channel is public. |
| Metrics.NonexistentChannelRejected | Bloxstrap.Services/Controllers/MetricsController.cs:72-82 | A nonexistent channel gets 400 and nothing is written. At most the existence GET is made. The visibility check is never asked: every cache key other than `channel-{v}-valid` is left as it was. |
| Metrics.CachedNegativeChannelMakesNoCall | Bloxstrap.Services/Controllers/MetricsController.cs:72-82 | A channel cached as nonexistent is refused within the day with no GET and no change to the cache. |
| Metrics.ChannelRouting | Bloxstrap.Services/Controllers/MetricsController.cs:63-91 | Outside Development, an existing channel gets 200. It is written to `bloxstrap-14d`, then to `bloxstrap-14d-public` exactly when it is public. |
| Metrics.ChannelWrites | Bloxstrap.Services/Controllers/MetricsController.cs:63-91 | Outside Development the channel metric's destinations are `bloxstrap-14d` followed, for a public channel only, by `bloxstrap-14d-public`. |
| Metrics.PostWritesOnePointPerBucket | Bloxstrap.Services/Controllers/MetricsController.cs:97-106 | A beacon ends in 200 or 400, and a 400 writes nothing. A 200 writes one or two copies of the same point: measurement = key, the (possibly lower-cased) value as field with value 1, the version tag and the request time. In Development it writes exactly one, to `test-bucket`. |
| Metrics.AcceptedWrites | Bloxstrap.Services/Controllers/MetricsController.cs:97-106 | An accepted beacon's writes are one or two copies of its point, and only `test-bucket` in Development. |
| Metrics.PostOutboundCalls | Bloxstrap.Services/Controllers/MetricsController.cs:52-109 | A beacon makes at most two GETs, and makes one only for the channel metric. |
| Metrics.InstallBeacon | Bloxstrap.Services/Controllers/MetricsController.cs:52-109 | `installAction=install` in Production gets 200 and exactly one write, to `bloxstrap-90d`, with no GET. |
| Metrics.PrivateChannelBeacon | Bloxstrap.Services/Controllers/MetricsController.cs:65-106 | `robloxChannel=Zbeta1`, for an existing private channel with nothing cached, gets 200. It makes one GET per check and one write of field `zbeta1` to `bloxstrap-14d`. |
| Metrics.Utf16Length | Bloxstrap.Services/Controllers/MetricsController.cs:119-122 | A trace has UTF-16 length 0 exactly when it is empty. |
| Metrics.Utf16LengthBounds | Bloxstrap.Services/Controllers/MetricsController.cs:122 | A trace's UTF-16 length lies between its character count and twice that. It equals the count iff no character lies above U+FFFF. |
| Metrics.TraceVerdict | Bloxstrap.Services/Controllers/MetricsController.cs:119-126 | A trace is accepted iff it is non-empty and shorter than 51200 UTF-16 units. Otherwise an empty trace gets 400 and a long one 413. |
| Metrics.TraceSizeBoundary | Bloxstrap.Services/Controllers/MetricsController.cs:119-126 | 51200 characters or more are always refused with 413. A non-empty trace under 25600 characters is accepted. For text within the BMP, acceptance holds iff there are 1 to 51199 characters, so exactly 51200 is refused. |
| Metrics.PointSink.constructor | Bloxstrap.Services/Controllers/MetricsController.cs:17 | The time-series store starts with no writes. |
| Metrics.PointSink.WritePoint | Bloxstrap.Services/Controllers/MetricsController.cs:106 | One write appends that point under that bucket. |
| Metrics.PointSink.WriteEach | Bloxstrap.Services/Controllers/MetricsController.cs:105-106 | The write loop appends the point once per bucket, in bucket order. |
| Metrics.ReportTable.constructor | Bloxstrap.Services/Controllers/MetricsController.cs:18 | The report table starts empty. |
| Metrics.ReportTable.Insert | Bloxstrap.Services/Controllers/MetricsController.cs:128-134 | An insert appends exactly that row. |
| Metrics.MetricsController.constructor | Bloxstrap.Services/Controllers/MetricsController.cs:17-19 | The controller holds the cache, the stores and the environment it is given. |
| Metrics.MetricsController.CheckChannelCached | Bloxstrap.Services/Controllers/MetricsController.cs:72-91 | The two cached checks, run against the shared cache, return the channel's existence and visibility. They leave the cache and the GET log as the channel-check semantics prescribe. |
| Metrics.MetricsController.Post | Bloxstrap.Services/Controllers/MetricsController.cs:52-109 | The status, the appended writes, the new cache and the GETs issued are exactly the beacon's outcome computed from the old cache. |
| Metrics.MetricsController.PostException | Bloxstrap.Services/Controllers/MetricsController.cs:111-137 | Empty body: 400. 51200 UTF-16 units or more: 413. Otherwise: 200. Exactly one row (time, trace) is appended iff the status is 200. |
| UserAgent.RunEnd | Bloxstrap.Services/Program.cs:77 | A greedy character-class run: every character in it is in the class, and the character after it is not. |
| UserAgent.RunEndIsMaximal | Bloxstrap.Services/Program.cs:77 | Any in-class run that stops at an out-of-class character (or the end) is the greedy run. |
| UserAgent.QualifierEnd | Bloxstrap.Services/Program.cs:77 | A qualifier the scanner finds is one of the three alternatives: `Production`, `Build <token>`, or `Artifact <40 hex>, <path>`. |
| UserAgent.QualifierEndComplete | Bloxstrap.Services/Program.cs:77 | Every qualifier alternative followed by `)` is the one the scanner finds. |
| UserAgent.MatchAt | Bloxstrap.Services/Program.cs:77 | A match the scanner finds at i starts at i and ends within the string. |
| UserAgent.MatchAtSound | Bloxstrap.Services/Program.cs:77 | What the scanner finds at i matches the pattern, with that qualifier as group 2. |
| UserAgent.MatchAtComplete | Bloxstrap.Services/Program.cs:77 | Every match of the pattern starting at i is the one the scanner finds there, so at most one match starts at each position. |
| UserAgent.LeftmostFrom | Bloxstrap.Services/Program.cs:77 | The scan from i returns a scanner match, and no position between i and it has one. |
| UserAgent.LeftmostMatch | Bloxstrap.Services/Program.cs:77 | The unanchored search returns a scanner match with none further left, or none if no position has one. |
| UserAgent.LeftmostMatchAt | Bloxstrap.Services/Program.cs:77 | A match at i with none further left is the search result. |
| UserAgent.LeftmostMatchSpec | Bloxstrap.Services/Program.cs:77 | Against the pattern itself: the search result is a match and no match starts further left; no result means the string contains no match. |
| UserAgent.EndpointFilter | Bloxstrap.Services/Program.cs:69-92 | A request is admitted only when there is a first User-Agent value and its leftmost match has the qualifier `Production`. The value recorded as the client version is that whole first value. |
| UserAgent.EndpointFilterSpec | Bloxstrap.Services/Program.cs:69-92 | A request is admitted iff its first User-Agent value has a Production match with no match of any kind further left. The recorded client version is that whole value. |
| UserAgent.MissingHeaderRejected | Bloxstrap.Services/Program.cs:71-73 | No User-Agent value: 400. |
| UserAgent.OnlyFirstValueExamined | Bloxstrap.Services/Program.cs:75 | The verdict depends on the first User-Agent value only. |
| UserAgent.NoMatchWithoutB | Bloxstrap.Services/Program.cs:77 | No match starts at a character other than `B`. |
| UserAgent.HeaderMatches | Bloxstrap.Services/Program.cs:77 | `Bloxstrap/<version> (<qualifier>)` is itself a match, with that qualifier. |
| UserAgent.ShiftMatch | Bloxstrap.Services/Program.cs:77 | A match stays a match, with the same qualifier, when embedded in a longer string. |
| UserAgent.ProductionHeaderAccepted | Bloxstrap.Services/Program.cs:75-87 | A header `<prefix without B>Bloxstrap/<version> (Production)<anything>` is admitted, and that whole value becomes the client version. |
| UserAgent.BuildHeaderRejected | Bloxstrap.Services/Program.cs:77-91 | A header that starts with a Build match is refused, even when a Production match follows it. |
| Gateway.Pipeline.constructor | Bloxstrap.Services/Program.cs:66-69 | The pipeline puts the given limiter in front of the given controller. |
| Gateway.Pipeline.HandlePost | Bloxstrap.Services/Program.cs:66-69 | The limiter decides first and always takes its permit. A refused request gets 429 and touches neither the cache nor the store. An admitted request the identity filter refuses gets 400 with nothing touched. Otherwise the beacon's outcome follows, tagged with the recorded header value. |
| Gateway.Pipeline.HandlePostException | Bloxstrap.Services/Program.cs:66-69 | Same ordering for the crash-trace endpoint: 429 before 400 before the trace verdict. A row is stored only when the trace is accepted. |

## Left out

- Transport and hosting are not modelled: the HTTP server, routing, dependency injection, startup configuration, forwarded headers, the health check, the redirect at `/`, migrations and logging. The model starts at the rate-limit policy and the endpoint filter.
- Time-series wire format is not modelled: the line protocol, millisecond precision and the InfluxDB client are left out. A write is the pair (bucket, point).
- Failing outbound calls are not modelled. A GET is the oracle `get`, which says whether the response had a success status. The code sets no timeout of its own; the client keeps HttpClient's default timeout, which raises an exception, as does an unreachable remote. The code catches neither, and the model, like any failed GET, does not have them.
- Three details follow the code as written:
  - existence is the success status alone, with no inspection of the body;
  - the code sets no timeout of its own on the outbound GET;
  - a trace of exactly 51200 code units is refused.
- One request runs at a single instant `now`. Both cached checks and the point's timestamp use it, whereas the code reads the clock again after each awaited GET.
- Concurrency is not modelled. Requests are handled one at a time; the concurrent, atomic updates of the limiter and the cache are not.
- `RateLimiting.FixedWindowLimiter.TryAcquire`: windows open at a partition's first request and reset lazily at the first request after they elapse. The .NET limiter's timer-driven replenishment and window alignment are not modelled, nor is the eviction of idle partitions. The time is in whole seconds.
- `ValidationCache.MemoryCache.IsHttpRequestSuccessCached`: expired entries stay in the map until they are overwritten; eviction under memory pressure is not modelled.
- `Metrics.ToLowerInvariant`: only the ASCII letters are lower-cased, not the rest of Unicode.
- `UserAgent.EndpointFilter`: a null first header value is not modelled; a header value is always a string.
- The exception row's database-assigned id is not modelled, and neither are failures of the stores.
- `Metrics.MetricsController.Post`: the two cached checks (`CheckChannelCached`) and the write loop (`PointSink.WriteEach`) are separate methods that `Post` calls. The order of the checks and of the writes is unchanged.
