# Request governance for a Django app, modelled in Dafny

This project models the request-governance layer of the `ip_tracking` Django app. It has three pieces.

- **The interception middleware** (`IPTrackingMiddleware`). For every inbound request it:
  - extracts the client address: the first entry of `X-Forwarded-For`, stripped of whitespace, or else `REMOTE_ADDR`;
  - refuses the request with a 403 when the address is on the block list;
  - otherwise appends one `(address, path, timestamp)` row to the request log and passes the request on.
- **The anomaly scan** (`detect_suspicious_ips`). It looks at the last hour of the request log, with the window's lower bound inclusive. It runs two get-or-create passes into the suspicious-address table, which is keyed by address alone:
  - first, every address with more than 100 requests in the window;
  - then, every address that requested `/admin` or `/login` exactly.

  An address that already has a flag keeps its first reason.
- **The rate-limit key** (`user_or_ip`). This is the decimal primary key of an authenticated user, or else `REMOTE_ADDR`.

Modules:

- `Wrappers`: the `Option` type.
- `Strings`: the Python string built-ins the code relies on, namely `str.strip()`, `str.split(",")[0]` and `str(int)`.
- `Http`: `request.META`, the path and the user.
- `Models`: the log row and the flag table.
- `Middleware`: `get_client_ip`, and the middleware as a class. The class has the block list and the request log as fields. `Call` is proved against the value-level `Handle`.
- `Tasks`: the scan, written as a method with the source's two loops. It is proved equal to the specification function `Scanned`, which describes the flag table after a scan address by address.
- `RatelimitKeys`: `user_or_ip`.

Modelling choices:

- **Database tables are explicit state.** The `BlockedIP` table becomes a `set<string>` and the `RequestLog` table a `seq<LogEntry>` in insertion order. The `SuspiciousIP` table becomes a map from address to reason.
- **The clock is a parameter.** `timezone.now()` is an integer number of seconds passed in.
- **The scan's policy is a parameter.** `ScanConfig` carries the window, the threshold and the sensitive paths. `DEFAULT_CONFIG` holds the source's values: 3600 s, 100 and `["/admin", "/login"]`. The volume reason is rendered from the configured threshold, which equals `REQUEST_THRESHOLD` under `DEFAULT_CONFIG`.
- **An address may be missing.** `request.META.get("REMOTE_ADDR")` can return `None`, so an address is an `Option<string>`:
  - a missing address never matches the block list;
  - it is logged as missing;
  - the scan treats it as one more address value, so the flag table is keyed by `Option<string>`.

## Model

| member | source | states |
|---|---|---|
| Http.MetaGet | ip_tracking/middleware.py:35 | `META.get(key)` is present exactly when the variable is set, and then it carries the variable's value |
| Strings.IsSpace | ip_tracking/middleware.py:37 | the characters that `str.strip()` removes: CPython's whitespace set |
| Strings.Strip | ip_tracking/middleware.py:37 | the stripped string is empty or neither starts nor ends with Python whitespace |
| Strings.StripSpec | ip_tracking/middleware.py:37 | `strip()` returns a contiguous slice of its input, and only whitespace lies outside that slice on either side |
| Strings.StripUntrimmed | ip_tracking/middleware.py:37 | stripping a string without edge whitespace returns it unchanged |
| Strings.FirstField | ip_tracking/middleware.py:37 | `split(",")[0]` is a prefix of the input that contains no comma and ends at the first comma or at the end of the input |
| Strings.FirstFieldOfJoin | ip_tracking/middleware.py:37 | the first field of `head + "," + tail` is `head` when `head` holds no comma |
| Strings.StrippedFirstField | ip_tracking/middleware.py:37 | `split(",")[0].strip()` is a slice of the header that ends no later than the first comma, with only whitespace around it inside the first entry |
| Strings.NatToDecimal | ip_tracking/tasks.py:30 | `str(n)` for a natural number is a non-empty string of digits with no leading zero (so `str(0)` is `"0"`) |
| Strings.DecimalRoundTrip | ip_tracking/tasks.py:30 | reading back the digits of `str(n)` gives `n` |
| Strings.IntToString | ip_tracking/ratelimit_keys.py:3 | `str(i)` is non-empty and starts with a minus sign exactly when `i` is negative |
| Strings.IntToStringDigits | ip_tracking/ratelimit_keys.py:3 | `str(i)` is an optional minus sign followed by the decimal numeral of the magnitude of `i`, whose only zero-led form is the single digit `"0"` |
| Strings.ZeroRendering | ip_tracking/ratelimit_keys.py:3 | `str(0)` is `"0"` |
| Strings.IntToStringInjective | ip_tracking/ratelimit_keys.py:3 | distinct integers have distinct `str` renderings |
| Middleware.GetClientIp | ip_tracking/middleware.py:33-40 | with a set, non-empty forwarded header the address is present, has no comma and no edge whitespace; otherwise it is `META.get("REMOTE_ADDR")`, which may be missing |
| Middleware.ForwardedAddressIsFirstEntry | ip_tracking/middleware.py:35-37 | the forwarded address is the header's first comma-separated entry with its surrounding whitespace removed |
| Middleware.ForwardedFirstEntry | ip_tracking/middleware.py:35-37 | a header `first,rest` whose `first` has no comma and no edge whitespace yields exactly `first`, whatever `REMOTE_ADDR` says |
| Middleware.ForwardedExample | ip_tracking/middleware.py:35-37 | `"203.0.113.5, 70.41.3.18"` yields `"203.0.113.5"` |
| Middleware.PeerAddressExample | ip_tracking/middleware.py:35-39 | an absent or empty forwarded header falls back to `REMOTE_ADDR` |
| Middleware.BlankFirstEntryExample | ip_tracking/middleware.py:36-37 | the fallback is decided on the raw header: `" ,1.2.3.4"` yields the empty address, not `REMOTE_ADDR` |
| Middleware.UsesForwardedHeader | ip_tracking/middleware.py:36 | the truthiness test `if x_forwarded_for:` on the raw header: the header is set and is not the empty string |
| Middleware.IsBlocked | ip_tracking/middleware.py:23 | `BlockedIP.objects.filter(ip_address=ip).exists()`: the address is present and on the block list; a missing address matches no row |
| Middleware.Handle | ip_tracking/middleware.py:17-31 | one pass of `__call__` as a value: the response is the 403 refusal exactly when the address is blocked, and then the log is unchanged; otherwise one `(address, path, now)` entry is appended |
| Middleware.IPTrackingMiddleware.Call | ip_tracking/middleware.py:17-31 | the block list is never changed; the response and the new log are those of `Handle` on the old log, with the one timestamp captured before the block check |
| Middleware.BlockedRequestIsDenied | ip_tracking/middleware.py:23-25 | a blocked address gets the 403 message and the log is unchanged |
| Middleware.AllowedRequestIsLoggedOnce | ip_tracking/middleware.py:18-31 | any other request is passed on and exactly one entry `(address, path, now)` is appended after the unchanged old log |
| Middleware.ReplayOnlyAppends | ip_tracking/middleware.py:17-31 | over any series of requests the old log stays a prefix, one entry is added per allowed request, and no added entry carries a blocked address |
| RatelimitKeys.UserOrIp | ip_tracking/ratelimit_keys.py:1-4 | an authenticated user gets a present, non-empty key that is signed like its pk; an anonymous request gets `META.get("REMOTE_ADDR")`, which may be missing |
| RatelimitKeys.AuthenticatedKeyIsPk | ip_tracking/ratelimit_keys.py:2-3 | the authenticated key is `str(pk)`: a sign, then canonical digits (no leading zero, `"0"` for 0) whose decimal value is the magnitude of the pk |
| RatelimitKeys.DistinctUsersGetDistinctKeys | ip_tracking/ratelimit_keys.py:2-3 | two accounts with different pks never share a key |
| RatelimitKeys.GroupIsIgnored | ip_tracking/ratelimit_keys.py:1-4 | the group argument never changes the key |
| RatelimitKeys.AnonymousKeyIgnoresForwardedHeader | ip_tracking/ratelimit_keys.py:4 | setting the forwarded header to anything leaves an anonymous request's key unchanged |
| RatelimitKeys.AnonymousKeyIsClientIpWithoutProxy | ip_tracking/ratelimit_keys.py:4 | without a usable forwarded header the anonymous key equals the middleware's client address |
| RatelimitKeys.KeyCanDifferFromClientIp | ip_tracking/ratelimit_keys.py:4 | behind a proxy the key (the proxy's address) differs from the address the middleware logs and blocks |
| Tasks.Cutoff | ip_tracking/tasks.py:15 | `timezone.now() - timedelta(hours=1)`: the cutoff lies exactly one window before `now` |
| Tasks.VolumeReason | ip_tracking/tasks.py:30 | the volume reason, `f"Exceeded {threshold} requests/hour"`, with the threshold rendered by `str` |
| Tasks.PathReason | ip_tracking/tasks.py:37 | the sensitive-path reason, `f"Accessed sensitive path: {path}"` |
| Tasks.VolumeReasonIsNotPathReason | ip_tracking/tasks.py:30-37 | the volume reason and a sensitive-path reason are never the same text, so a stored reason tells which pass created it |
| Tasks.VolumeReasonInjective | ip_tracking/tasks.py:30 | the reason `"Exceeded {threshold} requests/hour"` determines the threshold it reports |
| Tasks.PathReasonInjective | ip_tracking/tasks.py:37 | the reason `"Accessed sensitive path: {path}"` determines the path it reports |
| Tasks.Recent | ip_tracking/tasks.py:15-19 | the window query holds exactly the log entries stamped at or after the cutoff |
| Tasks.Hits | ip_tracking/tasks.py:34 | the sensitive-path query holds exactly the in-window entries whose path is one of the sensitive paths |
| Tasks.CountFor | ip_tracking/tasks.py:18-22 | an address's count is at most the number of entries, and positive exactly when the address occurs |
| Tasks.Addresses | ip_tracking/tasks.py:18-20 | the per-address groups are exactly the addresses that occur, each once |
| Tasks.FirstPathFor | ip_tracking/tasks.py:35-38 | an address has a first path exactly when it occurs, and that path is the one of its first entry: no earlier entry carries the address |
| Tasks.GetOrCreate | ip_tracking/tasks.py:29-31 | get-or-create adds the address, keeps every existing reason, and stores the default only for a new address |
| Tasks.Scanned | ip_tracking/tasks.py:10-38 | a scan keeps every existing flag with its reason |
| Tasks.DetectSuspiciousIps | ip_tracking/tasks.py:10-38 | the two loops produce `Scanned`: old flags kept, the volume reason for a new address over the threshold, else the path of its first sensitive hit |
| Tasks.VolumePass | ip_tracking/tasks.py:24-31 | the flag table after the first loop has visited a prefix of the address groups: get-or-create with the volume reason for each group over the threshold |
| Tasks.PathPass | ip_tracking/tasks.py:35-38 | the flag table after the second loop has visited a prefix of the sensitive hits: get-or-create with each hit's path reason |
| Tasks.VolumePassAt | ip_tracking/tasks.py:24-31 | after the volume pass an address is flagged iff it was flagged before or its group is over the threshold, and old reasons stay |
| Tasks.PathPassAt | ip_tracking/tasks.py:35-38 | after the path pass an address is flagged iff it was flagged before or has a hit, and a new flag names its first hit's path |
| Tasks.PassesCompose | ip_tracking/tasks.py:24-38 | the volume pass followed by the path pass equals `Scanned` |
| Tasks.LaterCutoffCountsLess | ip_tracking/tasks.py:15-22 | a later cutoff never raises an address's in-window count |
| Tasks.ScanIsIdempotent | ip_tracking/tasks.py:15-38 | a second scan over the same log, run at the same time or later, leaves the table identical |
| Tasks.FlaggedIffSuspicious | ip_tracking/tasks.py:15-38 | after a scan an address is flagged iff it was flagged before, or has more than the threshold of in-window requests, or has an in-window sensitive hit |
| Tasks.VolumeReasonComesFirst | ip_tracking/tasks.py:24-38 | a new address over the threshold gets the volume reason even when it also has a sensitive hit |
| Tasks.PathReasonNamesFirstHit | ip_tracking/tasks.py:34-38 | a new address flagged only for paths records the path of its first in-window request to a sensitive path, in the order of the query |
| Tasks.RecentDropsStale | ip_tracking/tasks.py:19 | removing an entry older than the cutoff from anywhere in the log leaves the window query unchanged |
| Tasks.HitsDropsStale | ip_tracking/tasks.py:34 | removing an entry older than the cutoff from anywhere in the log leaves the sensitive-path query unchanged |
| Tasks.StaleEntryIsIgnored | ip_tracking/tasks.py:15-38 | an entry older than the cutoff, wherever it sits in the log, changes nothing in the scan |
| Tasks.EntryAtCutoffIsCounted | ip_tracking/tasks.py:19 | the window bound is inclusive: an entry stamped exactly at the cutoff adds one to its address's count |
| Tasks.DefaultVolumeReason | ip_tracking/tasks.py:30 | the volume reason under the default threshold is `"Exceeded 100 requests/hour"` |
| Tasks.ThresholdIsStrict | ip_tracking/tasks.py:7-31 | under the default policy, `n` ordinary in-window requests from one address flag it for volume when `n` > 100 and flag nothing when `n` <= 100 |
| Tasks.SinglePathRequest | ip_tracking/tasks.py:34-38 | one in-window request flags its address with its path exactly when the path is `/admin` or `/login` |
| Tasks.LoginIsSensitive | ip_tracking/tasks.py:34-38 | a request to `/login` is flagged as `"Accessed sensitive path: /login"` |
| Tasks.NearMissesAreNotSensitive | ip_tracking/tasks.py:34 | `/admin/` and `/login?x` are not sensitive paths and flag nothing |

## Left out

- `ip_tracking/views.py` (`login_view`) and the rate-limit library that interprets its rates are not part of this model. `user_or_ip` only chooses the key.
- Django's ORM is replaced by explicit set, sequence and map values. Atomicity, transactions, concurrent requests and store failures are not modelled.
- Query results are taken in log order: address groups in order of first appearance, sensitive hits in insertion order. The database guarantees no order.
- `ip_tracking/models.py` is not part of this model. Column constraints, such as whether a missing address may be stored, are therefore not modelled.
- The flag table is keyed by `Option<string>` rather than by string, because the extracted address can be missing.
- `logger.warning` and `logger.info` are not modelled. They are side channels only.
- `timezone.now()` and `timedelta` become whole seconds passed in. Time zones and sub-second precision are not modelled.
- The downstream handler is abstract. `PassThrough` stands for `self.get_response(request)`, and `IPTrackingMiddleware.constructor` holds the two tables instead of `get_response`.
- The Celery task scheduling and overlapping runs of the scan are not modelled.
- Geolocation enrichment and its cache are described for this system but appear in none of the code, so they are not modelled.
- The aggregation at `ip_tracking/tasks.py:21` calls `models.Count` although `models` is never imported. As written, the task would stop with a `NameError`. The model gives the intended count per address.
