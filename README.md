# Single-page web server: request decisions and metrics bookkeeping

This project models the core of a small Rust server that serves one HTML
document to many clients. It covers four parts:

- **Content store** (`AppState::new`). It computes the document's representations once at start-up:
  - an ETag: the MD5 digest as lower-case hex, in double quotes;
  - the gzip-compressed body;
  - the raw body;
  - the lengths of both bodies.
- **Request handler** (`handle_request`). It is a total decision on two request headers:
  - An `If-None-Match` equal to the ETag (ASCII case ignored) gets an empty 304.
  - Any other request gets a 200 with fixed headers.
  - The body is gzip when `Accept-Encoding` is visible text containing `gzip`.
  - `Content-Length` is the length of the body sent.
- **Socket buffer sizing** (`run_server`). The send buffer is twice the document length, clamped to [16 KiB, 1 MiB]. The receive buffer is a fixed 16 KiB.
- **Metrics recorder** (`Metrics`) and the metrics listener's router. The recorder keeps:
  - a per-method request counter;
  - a per-method in-flight gauge;
  - a per-(method, status) duration histogram, modelled as its sample count.
- **Legacy handler** (`server::handle_request` in `src/lib.rs`). It ignores the request. It returns the raw document with an 8-digit ETag and a one-year immutable cache policy.

MD5 and gzip are library code. Every member that needs them takes them as
function-typed parameters (`md5: Bytes -> Digest`, `gzip: Bytes -> Bytes`),
so nothing is assumed about them. The only exception is that a digest has 16
octets. How the digest is rendered as hex is modelled exactly.

Files:
- `octets.dfy` (module `Octets`): octet strings; hex and decimal rendering with their decoders; ASCII case folding; visible-ASCII validation; substring search.
- `http.dfy` (module `Http`): requests, responses and header lookup. Header names are lower case, as the HTTP library stores them. A lookup returns the first header with that name.
- `server.dfy` (module `Server`): `src/server.rs`.
- `metrics.dfy` (module `RequestMetrics`): `src/metrics.rs`. The recorder is a class whose three maps its methods update in place. Pure `Snapshot` functions state what each call does. A trace of calls (`Replay`) carries the "counts add up" lemmas over any order of calls.
- `legacy_server.dfy` (module `LegacyServer`): the inline handler in `src/lib.rs`.

### Behaviour of the code worth knowing

- **ETag comparison.** The code compares `If-None-Match` with the ETag ignoring ASCII case (`src/server.rs:52`). Section 8.8.3.2 of RFC 9110 compares entity tags octet by octet (in both its strong and weak forms), so HTTP itself would treat an upper-cased tag as a different one. `Server.UpperCaseEtagStillMatches` shows that an upper-cased ETag still gets a 304.
- **Content-Encoding.** On the uncompressed path the code sets no `Content-Encoding` header at all (`src/server.rs:76-79`).
- **Buffer sizes.** The code clamps the send buffer to [16 KiB, 1 MiB] and fixes the receive buffer at 16 KiB (`src/server.rs:100-115`).
- **Metrics.** The handler in `src/server.rs` takes only the request and the state and records no metrics. The integration tests call a three-argument handler that also takes the recorder. The model keeps the handler and the recorder separate.

## Model

| member | source | states |
|---|---|---|
| `Octets.Hex` | src/server.rs:29 | `{:x}` of a digest: two lower-case hex digits per octet, so the text is twice as long as the digest |
| `Octets.HexRoundTrip` | src/server.rs:29 | decoding the hex rendering of a digest gives the digest back |
| `Octets.HexInjective` | src/server.rs:29 | two digests render to the same hex exactly when they are equal |
| `Octets.EqIgnoreAsciiCaseIsLowerEquality` | src/server.rs:52 | two values are equal ignoring ASCII case exactly when their lower-cased forms are equal |
| `Octets.UpperCaseIsEquivalent` | src/server.rs:52 | every value equals its upper-cased form, ignoring ASCII case |
| `Octets.ContainsIff` | src/server.rs:64 | the left-to-right scan reports a substring exactly when it occurs at some offset |
| `Octets.DecimalRoundTrip` | src/server.rs:70-74 | a length rendered in decimal reads back as the same length |
| `Http.GetHeader` | src/server.rs:51 | the lookup is absent exactly when no header has the name; otherwise it returns the value of the first such header |
| `Server.NewAppState` | src/server.rs:27-39 | raw body = the content and compressed body = gzip(content); both lengths equal their bodies; the ETag has 34 octets: a quote, 32 lower-case hex digits, a quote; the ETag decodes back to md5(content) |
| `Server.EtagIdentifiesDigest` | src/server.rs:28-29 | two documents get the same ETag exactly when they have the same digest; the ETag depends on nothing else |
| `Server.HandleRequest` | src/server.rs:49-88 | total; the status is 304 exactly when `If-None-Match` matches the ETag (ASCII case ignored), and 200 otherwise |
| `Server.NotModifiedWhenEtagMatches` | src/server.rs:51-57 | a matching validator gets status 304 with no headers and an empty body, whatever `Accept-Encoding` says |
| `Server.FullResponseUnlessEtagMatches` | src/server.rs:66-87 | otherwise: status 200; `Content-Type: text/html`; `Cache-Control: public, max-age=3600, must-revalidate`; `ETag` = the state's ETag; `Content-Encoding` is present exactly when compression is chosen, and then it is `gzip`; the body is the compressed body exactly when compression is chosen, the raw body otherwise |
| `Server.ContentLengthMatchesBody` | src/server.rs:70-74 | for a store whose lengths match its bodies, `Content-Length` is the decimal length of the body sent and reads back as that length |
| `Server.CompressionChoice` | src/server.rs:61-64 | compression is chosen exactly when `Accept-Encoding` is present, all visible ASCII or tab, and has `gzip` at some offset |
| `Server.NonTextAcceptEncodingIsUncompressed` | src/server.rs:63 | an `Accept-Encoding` value that is not text selects the raw body, even if it contains `gzip` |
| `Server.GzipWithQualityZeroIsCompressed` | src/server.rs:64 | `gzip;q=0` still selects gzip, because the header is only searched for a substring |
| `Server.UpperCaseEtagStillMatches` | src/server.rs:52 | the upper-cased ETag as `If-None-Match` still gets a 304 |
| `Server.DifferentEtagServesFullBody` | tests/integration_test.rs:301-313 | `If-None-Match: "different-etag"` gets a 200 with the document byte for byte |
| `Server.RevalidationRoundTrip` | src/server.rs:49-86 | for any document: a plain GET gets 200 with the document and the fixed headers; echoing its ETag gets a 304 with no headers and an empty body; `Accept-Encoding: gzip` gets `Content-Encoding: gzip` and the gzip body |
| `Server.RevalidationScenario` | tests/integration_test.rs:228-295 | for `<html><body>ETag Test Content</body></html>`: the first GET gets 200 with the document, `text/html`, the revalidation cache policy and an ETag; echoing that ETag gets a 304 with no headers and an empty body |
| `Server.SendBufferSize` | src/server.rs:100-101 | the send buffer lies in [16384, 1048576]; it equals twice the document length when that is in range; it fits in 32 bits, so the conversion at line 114 cannot fail |
| `Server.SendBufferSizeIsNearest` | src/server.rs:100-101 | the send buffer is the size in [16384, 1048576] nearest to twice the document length |
| `Server.SocketBufferSizes` | src/server.rs:100-115 | the send size is twice the document length when that lies in [16384, 1048576], 16384 below that range and 1048576 above it; the receive size is 16384 |
| `RequestMetrics.Metrics.constructor` | src/metrics.rs:28-67 | a new recorder has no series: every request count and in-flight gauge reads 0, and there are no histogram samples |
| `RequestMetrics.Metrics.RecordRequest` | src/metrics.rs:70-74 | adds exactly 1 to the method's request count and to its in-flight gauge; no other method's series and no histogram change |
| `RequestMetrics.Metrics.RecordResponse` | src/metrics.rs:76-87 | adds exactly one sample under (method, status) and subtracts 1 from the method's in-flight gauge; other histogram keys, other gauges and all request counts are unchanged |
| `RequestMetrics.MetricsRecordingScenario` | tests/metrics_test.rs:8-72 | after 5 GET/200 pairs and 3 POST/404 pairs: request counts are GET 5 and POST 3; every in-flight gauge is 0; histogram sample counts are (GET, 200) 5 and (POST, 404) 3 |
| `RequestMetrics.ReplayCounts` | src/metrics.rs:70-87 | after any sequence of calls, a request count grows by that method's request calls; a gauge grows by its requests minus its responses; a histogram grows by that (method, status)'s responses |
| `RequestMetrics.ReplaySums` | tests/metrics_test.rs:101-122 | summed over methods, request counts grow by the number of request calls, and in-flight gauges by requests minus responses |
| `RequestMetrics.BalancedCallsDrainInFlight` | tests/metrics_test.rs:74-123 | from a new recorder, any interleaving in which each method has as many responses as requests: total requests = number of request calls; every gauge, and their sum, is 0 |
| `RequestMetrics.ApplyCommutes` | src/metrics.rs:70-87 | any two recorder calls can be applied in either order with the same result |
| `RequestMetrics.ReplaySwap` | tests/metrics_test.rs:80-95 | swapping two neighbouring calls in a run leaves the final state unchanged |
| `RequestMetrics.MoveToFront` | src/metrics.rs:70-87 | a call made anywhere in a run has the same effect as making it first |
| `RequestMetrics.ReplayPermutation` | tests/metrics_test.rs:74-123 | two runs made of the same calls (equal multisets), in any order, end in the same state |
| `RequestMetrics.MetricsHandler` | src/metrics.rs:99-117 | the status is 200 exactly when the path is `/metrics`, and then it carries `Content-Type: text/plain` and the exposition text; any other path gets 404 with no headers and body `Not Found` |
| `LegacyServer.ShortEtag` | src/lib.rs:42-43 | 10 octets: a quote, the first 8 hex digits of the digest, a quote; it decodes to the first 4 digest octets |
| `LegacyServer.HandleRequest` | src/lib.rs:36-49 | always answers (no error branch): status 200 with the document byte for byte as the body |
| `LegacyServer.ResponseHeaders` | src/lib.rs:37-47 | `Content-Type: text/html`; `Cache-Control: public, max-age=31536000, immutable`; `ETag` = the short ETag; no `Content-Encoding`; body = the document |
| `LegacyServer.IgnoresRequest` | src/lib.rs:36 | any two requests get the same response |
| `LegacyServer.ShortEtagIsPrefixOfFullEtag` | src/lib.rs:42-43 | the short ETag's digits are the first 8 digits of the full ETag that `AppState::new` computes for the same document |

## Left out

- MD5 (`md5::compute`) and gzip (`compress_content`, `src/server.rs:43-47`): library code. They are uninterpreted parameters, so no hash or compression property is claimed, including the gzip round trip.
- The document is modelled as its UTF-8 octets. That the Rust `String` is valid UTF-8 is not modelled.
- Reading the index file, address parsing, socket creation and the hyper server settings in `run_server` (`src/server.rs:90-150`) and `run_metrics_server` (`src/metrics.rs:119-145`): network I/O and configuration.
- `shutdown_signal` (`src/server.rs:152-174`): OS signals and an async race.
- `src/tls.rs`, `src/cli.rs`, the `cli` module of `src/lib.rs` and `src/main.rs`: certificate generation, argument parsing and start-up plumbing.
- Headers the HTTP transport adds on its own (`Date`, and the `Content-Length` of the legacy and 304 responses) are not modelled. Only what the handlers set is modelled.
- The legacy handler's `Expires` header (`src/lib.rs:45-46`): it depends on the system clock.
- `RequestMetrics.Metrics.RecordResponse`: the `start` instant, the measured duration and the histogram buckets are dropped; only the sample count is kept. These are floating-point clock readings.
- The OpenTelemetry and Prometheus backends, `get_metrics`, `collect_metrics` and the text encoding (`src/metrics.rs:89-105`): library code. `RequestMetrics.MetricsHandler` takes the rendered text as a parameter, and the panic of `encode(...).unwrap()` is not modelled.
- `RequestMetrics.Metrics.RecordRequest`: the u64 counter and the i64 gauge are unbounded integers, so overflow after 2^63 or more calls is not modelled.
- The recorder's thread safety: calls are modelled one at a time. Concurrent use is a trace in any interleaving, and `ReplayPermutation` shows that the order does not matter.
- `Server.SendBufferSize`: the `usize` doubling is modelled without wrap-around. An in-memory document is at most `isize::MAX` octets, so twice its length always fits in `usize`.
- The three-argument `handle_request(req, state, metrics)` that the integration tests call is not part of this model. The modelled handler takes the request and the state and records no metrics.
- Header-name normalisation: the HTTP library stores header names in lower case, so the model's requests carry lower-case names and `Http.GetHeader` compares names exactly. A model `Request` built with a capitalised name (which the library cannot produce) is not looked up case-insensitively.
- `benches/bench.rs` and `tests/memory_test.rs`: performance and memory-layout checks.
