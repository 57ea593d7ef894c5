# Uptime monitor: the decision logic, in Dafny

This project models the decision logic of a small uptime monitor. The
monitor is a Flask application that keeps a list of sites. A background
thread probes each site with an HTTP GET when its check interval has
passed, and every probe is stored as a `Check` record. Web routes add,
delete, re-check and chart the sites.

The model keeps the decisions and drops the plumbing. The network, the
database session and the clocks become inputs:

- An `Outcome` says what one call of `check_site` did. It is either
  `Completed(probe, latency, finishedAt)` or `Crash`. A crash is any
  exception that escapes `check_site`, such as a failed commit.
- A `Probe` is either `Response(status)` or `RequestFail(message)`.
- `now` is the scheduler's `current_time` snapshot. Time is a whole number
  of seconds.
- The database is a `Store`: a sequence of sites and a sequence of checks.
  A failing commit is the flag `commitOk`.

Modules:

- `Wrappers` (wrappers.dfy) holds `Option`.
- `Sequences` (sequences.dfy) holds the order-preserving filter and its lemmas.
- `Models` (models.dfy) holds `Site`, `Check` and `Store`, the column
  defaults, `latest_check`, and the ordered `checks` relationship.
- `Monitor` (monitor.dfy) holds probe classification (`check_site`) and
  one iteration of the scheduler loop (`monitor_sites`).
- `Routes` (routes.dfy) holds `add_site`, the dashboard re-check in
  `index`, `check_site_now`, `delete_site` and `site_history`.

The scheduler tick handles the listed sites in order and threads the
bookkeeping map through them, as the loop does. `TickMatchesSnapshot`
assumes site ids are distinct, which the primary key guarantees. Under that
assumption it proves that a tick equals an independent description. In that
description every due test is made against the map as it was at the start
of the tick. Sites refreshed in the tick get the entry `now`. Every other
entry stays as it was.

Behaviour of the code that a reader might not expect, as the model keeps it:

- The code does not clamp `frequency`, so a site with `frequency <= 0` is
  due on every tick.
- The record is committed inside `check_site`, so a failed commit raises
  past it. The bookkeeping entry is then not updated, and the site is due
  again on the next tick (`UnrefreshedEntryUnchanged`).
- The request runs with `verify=False`. The request itself is not modelled.
- When the first check in `add_site` raises, the route rolls back and
  replies with an error. The site was committed before the check, so it
  stays in the store (`AddSite`).

## Model

| member | source | states |
|---|---|---|
| Models.NewSite | app/models.py:8-9 | A new site row takes a missing frequency as 300 and a missing alert threshold as 3. Given values are kept unchanged. |
| Models.FindSite | app/routes.py:59 | The site lookup finds nothing exactly when no row has the id. Otherwise it returns a stored row with that id. |
| Models.NewestFor | app/models.py:19-21 | The newest-check query is None exactly when the site has no check. Otherwise it returns a stored check of that site. No other check of the site has a later timestamp. |
| Models.LatestCheck | app/models.py:14-38 | `latest_check` is None when the lookup fails, and None when the site has no checks. Otherwise it is a stored check of the site with the greatest timestamp. |
| Models.SortByTime | app/routes.py:96 | Ordering by timestamp gives an ascending sequence. The result is a permutation of the input, compared as multisets. |
| Models.SiteChecks | app/models.py:11-12 | The `checks` relationship has timestamps in descending order. It is a permutation of exactly the site's checks. |
| Models.SiteChecksHeadIsLatest | app/models.py:11-21 | The first element of the `checks` relationship agrees with `latest_check`. Both are absent together, and otherwise they carry the same timestamp. |
| Monitor.Classify | app/monitor.py:28-60 | A record carries the probed site's id. A response is up exactly when its status is below 400, and the record keeps that status. A request failure is down, with status 0 and the exception text as its error. |
| Monitor.ClassifyRoundTrip | app/monitor.py:32-58 | Every record built by classification is well formed, and the probe can be read back from it. Every well-formed record is the classification of the probe it describes. |
| Monitor.UpMeansNoErrorClass | app/monitor.py:32 | For a code in 100..599, "up" means the code is in neither the client-error class nor the server-error class of RFC 9110 section 15. |
| Monitor.CheckSite | app/monitor.py:9-67 | `check_site` produces exactly one record unless an exception escapes it. A request failure never escapes. |
| Monitor.DueReadsOwnEntry | app/monitor.py:83-84 | The due test depends only on the clock, the site and that site's own bookkeeping entry. Asking twice gives the same answer. |
| Monitor.Tick | app/monitor.py:81-95 | A tick never drops a bookkeeping entry. Each entry is either its old value or `now` for a listed site. Each record belongs to a listed site and is well formed. There are no more records than listed sites. |
| Monitor.TickOnePerSite | app/monitor.py:81-95 | With distinct ids, no two records of a tick belong to the same site: each site is visited once and makes at most one record. |
| Monitor.LoopIteration | app/monitor.py:76-98 | If listing the sites fails, the iteration is skipped: the map is unchanged and no record is made. Otherwise the iteration is one tick. |
| Monitor.TickMatchesSnapshot | app/monitor.py:77-88 | With distinct ids, a tick matches the snapshot description. Each site that was due at the start of the tick and whose check returned gets `now`. All other entries are unchanged. There is one record per refreshed site, in list order. |
| Monitor.NotDueUntilFrequencyElapses | app/monitor.py:83-90 | After a site's check returns in a tick, up or down, the site is due at a later time exactly when `frequency` has passed since that tick's snapshot. |
| Monitor.UnrefreshedEntryUnchanged | app/monitor.py:83-95 | A listed site that was not due, or whose check raised, keeps its entry or its absence. A site whose check raised therefore stays due. |
| Monitor.CrashLeavesNoTrace | app/monitor.py:81-95 | A site whose check raises leaves no trace. The tick equals the same tick with that site removed, so every later site is processed as before. |
| Monitor.ColdStartChecksEverySite | app/monitor.py:72-84 | From an empty map, every listed site whose check returns gets an entry, and every entry is the snapshot `now`. |
| Routes.NormalizeUrl | app/routes.py:35-37 | The normalised URL always starts with `http://` or `https://`. A URL that already has one of these prefixes is unchanged. Any other URL gets `https://` in front. The original URL is always a suffix of the result. |
| Routes.NormalizeIdempotent | app/routes.py:36-37 | Normalising twice gives the same URL as normalising once. |
| Routes.NormalizeIsCaseSensitive | app/routes.py:36 | The prefix test is case-sensitive: `HTTP://example.org` gets a second scheme in front. |
| Routes.AddSite | app/routes.py:30-54 | A body without a URL changes nothing. A failed commit changes nothing and gives an error reply. Otherwise the store gains the normalised, defaulted site. One record of its first check is added when the check returns, and the reply is a success exactly then. When the check raises, the site stays but the reply is an error. Distinct ids stay distinct. |
| Routes.StaleImpliesDue | app/routes.py:19-20 | A stale site is also due for the scheduler. When exactly `frequency` seconds have passed, the scheduler's `>=` fires and the dashboard's strict `>` does not. |
| Routes.Dashboard | app/routes.py:10-27 | Rendering the dashboard only appends to the history. It adds no more records than there are listed sites. Each new record belongs to a listed site and is well formed, and with distinct ids no two new records belong to the same site. |
| Routes.VisitRecord | app/routes.py:16-23 | A visit adds exactly one record when the site is stale and its check returns, and nothing otherwise. A failed lookup counts as stale. The record belongs to the site, describes the probe, and carries the outcome's finishing time as its timestamp and the outcome's latency as its response time. |
| Routes.DashboardMatchesSnapshot | app/routes.py:15-23 | With distinct ids, the dashboard appends one record per site that was stale in the store as first seen and whose check returned. The records are in list order. |
| Routes.DashboardCrashLeavesNoTrace | app/routes.py:15-23 | A failed re-check of one site does not prevent the remaining sites from being considered. The result equals the same pass with that site removed. |
| Routes.CheckNow | app/routes.py:57-71 | An unknown site gets not-found and the store is unchanged. A raising check gets an error and the store is unchanged. Otherwise exactly one record of this site is appended. It describes the probe and carries the outcome's finishing time and latency. The reply repeats its fields. |
| Routes.DeleteSite | app/routes.py:74-84 | An unknown site gets not-found and a failed commit gets an error; in both cases the store is unchanged. Otherwise the site and every check with its id are removed. Every other site and check is kept, each as many times as it occurred before. |
| Routes.HistoryStart | app/routes.py:89-90 | The window starts `days` days (seven by default) of 86400 seconds before `now`. It fails, as the `OverflowError` of the date arithmetic does, exactly when `days` lies outside ±999999999 or the start falls outside the years 1 to 9999. |
| Routes.FarPastWindowFails | app/routes.py:90 | From any time in 1970 to 2099, a window of 800000 days fails because it would start before year 1, while the default seven-day window is defined. |
| Routes.HistoryChecks | app/routes.py:92-96 | The history holds only checks of the site with timestamp at or after `since`. It has ascending timestamps. Each such check appears exactly as often as it does in the store. |
| Routes.SiteHistory | app/routes.py:98-102 | The three reply lists have equal length and are index-aligned with the selected checks. The times never decrease and are never before `since`. |
| Routes.DeletedSiteHasNoHistory | app/routes.py:78-80 | After a site is deleted, its history is empty. |
| Routes.DeleteKeepsOtherHistories | app/routes.py:78-80 | Deleting one site leaves the history of every other site unchanged. |

## Left out

- The HTTP request: `requests.get`, headers, redirects, the 10-second timeout and `verify=False`. It is an outside network call, so the model uses the `Probe` outcome instead.
- The SQLAlchemy session: add, commit, rollback and the query engine. The store is a pair of sequences, and a failed commit is a flag or a `Crash` outcome. After a failed commit the session may make later statements in the same tick fail as well. The model does not derive that; the per-site outcome can express it.
- Flask: the blueprint, `render_template`, `jsonify`, `redirect`, HTTP status codes and the `strftime`/`isoformat` formatting. These are rendering; replies are small datatypes.
- The daemon thread, `time.sleep(1)` and the endless `while True`. These are concurrency and timing. One iteration is modelled (`LoopIteration`). Runs of many ticks, and the drift bound that depends on them, are not.
- Floating-point time and `response_time`. These are integers here: seconds, and an abstract latency supplied by the outcome.
- Monitor.Tick: `time.time()` for the snapshot and `datetime.utcnow()` for record timestamps are separate inputs (`now` and `finishedAt`). The model does not relate the two clocks.
- Routes.Dashboard: the code reads `utcnow()` once per site, but the model reads the clock once per page (`now`).
- Routes.AddSite: a JSON `null` for `frequency` or `alert_threshold` is not modelled. Only an absent key is, and it takes the default. The unhandled `KeyError` for a missing `url` becomes the reply `MissingUrl`. The model requires `newId` to be an id no stored site has (`requires !HasSite(store.sites, newId)`); the database's id assignment is not modelled.
- Routes.HistoryStart: a `days` value that `int()` cannot parse is not modelled. The model takes the parsed number. `now` counts seconds from 1970-01-01, and the microseconds of the clock are not modelled, so the year-9999 bound is taken at whole seconds.
- A null `frequency`, which would make the due comparison raise, is not modelled. Frequencies are integers.
- Models.NewestFor: among checks with equal timestamps, the model returns the one earliest in the store. The database leaves that choice open. This is why `SiteChecksHeadIsLatest` compares timestamps only.
- Check and site row ids other than `Site.id`, and the `__repr__` of a check, are not modelled.
- Logging, the `print` in `index`, and the `if not check.is_up` warning, which only logs.
- app/__init__.py and run.py. They only start the application.
