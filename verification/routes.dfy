/**
 * The web routes' decisions, with the rendering and the request parsing
 * left out: URL normalisation and defaults when a site is added, the
 * dashboard's staleness re-check, the manual check, deletion, and the
 * history query.
 *
 * A failing commit is the flag `commitOk`; a route's effect is the new
 * store together with the reply it sends.
 */
module Routes {
  import opened Wrappers
  import opened Sequences
  import opened Models
  import opened Monitor

  /** The store after a request, and what was sent back. */
  datatype Handled<R> = Handled(store: Store, reply: R)

  // ---------------------------------------------------------------------
  // add_site
  // ---------------------------------------------------------------------

  const HttpPrefix: string := "http://"
  const HttpsPrefix: string := "https://"

  /** The URL names its scheme; the test is case-sensitive, as `str.startswith` is. */
  predicate HasScheme(url: string) {
    HttpPrefix <= url || HttpsPrefix <= url
  }

  /** A URL without an `http://` or `https://` prefix gets `https://`. */
  function NormalizeUrl(url: string): (r: string)
    ensures HasScheme(r)
    ensures HasScheme(url) ==> r == url
    ensures !HasScheme(url) ==> r == HttpsPrefix + url
    ensures url == r[|r| - |url|..]
  {
    if HasScheme(url) then url else HttpsPrefix + url
  }

  /** Normalising twice is normalising once. */
  lemma NormalizeIdempotent(url: string)
    ensures NormalizeUrl(NormalizeUrl(url)) == NormalizeUrl(url)
  {
  }

  /** A URL that does not start with a lower-case `h` names no scheme. */
  lemma NoLowerHNoScheme(url: string)
    requires |url| > 0 && url[0] != 'h'
    ensures !HasScheme(url)
  {
  }

  /** The prefix test is case-sensitive: an upper-case scheme is not recognised. */
  lemma NormalizeIsCaseSensitive()
    ensures NormalizeUrl("HTTP://example.org") == "https://HTTP://example.org"
  {
    var url := "HTTP://example.org";
    assert url[0] == 'H';
    NoLowerHNoScheme(url);
    assert HttpsPrefix + url == "https://HTTP://example.org";
  }

  /** The JSON body of an add request; absent keys are None. */
  datatype AddRequest = AddRequest(
    url: Option<string>,
    frequency: Option<int>,
    alertThreshold: Option<int>,
    alertEmail: Option<string>)

  /** `MissingUrl` is the unhandled key error of a body without `url`. */
  datatype AddReply = Added(id: int) | AddFailed | MissingUrl

  /**
   * `add_site`. The database hands out `newId`. The site is committed first
   * and then checked once; if that check raises, the reply is an error but
   * the committed site stays in the store.
   */
  function AddSite(store: Store, newId: int, req: AddRequest, commitOk: bool, outcome: Outcome): (r: Handled<AddReply>)
    requires !HasSite(store.sites, newId)
    ensures req.url.None? ==> r.store == store && r.reply == MissingUrl
    ensures req.url.Some? && !commitOk ==> r.store == store && r.reply == AddFailed
    ensures req.url.Some? && commitOk ==>
      var site := NewSite(newId, NormalizeUrl(req.url.value), req.frequency, req.alertThreshold, req.alertEmail);
      && r.store.sites == store.sites + [site]
      && (r.reply == Added(newId) <==> outcome.Completed?)
      && (outcome.Completed? ==>
            r.store.checks == store.checks + [Classify(site, outcome.probe, outcome.latency, outcome.finishedAt)])
      && (outcome.Crash? ==> r.store.checks == store.checks && r.reply == AddFailed)
    ensures DistinctIds(store.sites) ==> DistinctIds(r.store.sites)
  {
    match req.url
    case None => Handled(store, MissingUrl)
    case Some(url) =>
      if !commitOk then Handled(store, AddFailed)
      else
        var site := NewSite(newId, NormalizeUrl(url), req.frequency, req.alertThreshold, req.alertEmail);
        var sites := store.sites + [site];
        assert forall i :: 0 <= i < |store.sites| ==> sites[i] == store.sites[i] && sites[i] in store.sites;
        match CheckSite(site, outcome)
        case Some(check) => Handled(Store(sites, store.checks + [check]), Added(newId))
        case None => Handled(Store(sites, store.checks), AddFailed)
  }

  // ---------------------------------------------------------------------
  // index: the dashboard's re-check
  // ---------------------------------------------------------------------

  /** The dashboard re-checks a site with no check, or whose newest check is more than `frequency` old. */
  predicate Stale(latest: Option<Check>, now: int, frequency: int) {
    latest.None? || now - latest.value.timestamp > frequency
  }

  /**
   * The dashboard's test is strictly stricter than the scheduler's: a stale
   * site would be due for the scheduler too, but at exactly `frequency`
   * seconds the scheduler fires and the dashboard does not.
   */
  lemma StaleImpliesDue(site: Site, c: Check, now: int)
    ensures Stale(Some(c), now, site.frequency) ==> Due(map[site.id := c.timestamp], site, now)
    ensures now - c.timestamp == site.frequency ==>
      Due(map[site.id := c.timestamp], site, now) && !Stale(Some(c), now, site.frequency)
  {
  }

  /** What visiting one site on the dashboard runs into: a failing lookup, and what its check does. */
  datatype Visit = Visit(lookupFailed: bool, outcome: Outcome)

  /**
   * The checks in the store after the dashboard has been rendered. Each
   * site in turn is re-checked when stale; an exception from its check is
   * caught and the loop goes on. A failed lookup reads as "no check" and so
   * triggers a re-check.
   */
  function Dashboard(checks: seq<Check>, sites: seq<Site>, now: int, visits: seq<Visit>): (r: seq<Check>)
    requires |visits| == |sites|
    ensures checks <= r
    ensures |r| <= |checks| + |sites|
    ensures forall c :: c in r[|checks|..] ==> HasSite(sites, c.siteId) && WellFormed(c)
    ensures DistinctIds(sites) ==> OnePerSite(r[|checks|..])
    decreases |sites|
  {
    if |sites| == 0 then checks
    else
      var first := VisitRecord(checks, sites[0], now, visits[0]);
      var r := Dashboard(checks + first, sites[1..], now, visits[1..]);
      AppendedRecords(checks, first, r, sites);
      r
  }

  /** The first site's record, then the later sites' records: what one step of the dashboard appends. */
  lemma AppendedRecords(checks: seq<Check>, first: seq<Check>, r: seq<Check>, sites: seq<Site>)
    requires |sites| > 0 && |first| <= 1 && checks + first <= r
    requires forall c :: c in first ==> c.siteId == sites[0].id && WellFormed(c)
    requires forall c :: c in r[|checks + first|..] ==> HasSite(sites[1..], c.siteId) && WellFormed(c)
    requires DistinctIds(sites[1..]) ==> OnePerSite(r[|checks + first|..])
    ensures forall c :: c in r[|checks|..] ==> HasSite(sites, c.siteId) && WellFormed(c)
    ensures DistinctIds(sites) ==> OnePerSite(r[|checks|..])
  {
    var later := r[|checks + first|..];
    assert r[|checks|..] == first + later;
    assert forall s :: s in sites[1..] ==> s in sites;
    if DistinctIds(sites) {
      DistinctTail(sites);
      TailHasOtherIds(sites);
      PrependOnePerSite(first, later, sites[0].id);
    }
  }

  /**
   * A dashboard visit that re-checks: the site is stale in the store the
   * visit sees, so `check_site` runs, and it returns.
   */
  predicate Rechecks(checks: seq<Check>, site: Site, now: int, v: Visit) {
    Stale(LatestCheck(site, checks, v.lookupFailed), now, site.frequency) && v.outcome.Completed?
  }

  /** What visiting one site adds to the store: its new record if it was re-checked, else nothing. */
  function VisitRecord(checks: seq<Check>, site: Site, now: int, v: Visit): (r: seq<Check>)
    ensures |r| == 1 <==> Rechecks(checks, site, now, v)
    ensures |r| <= 1
    ensures forall c :: c in r ==> c.siteId == site.id && WellFormed(c) && ProbeOf(c) == v.outcome.probe
    ensures forall c :: c in r ==> c.timestamp == v.outcome.finishedAt && c.responseTime == v.outcome.latency
  {
    var checked := if Stale(LatestCheck(site, checks, v.lookupFailed), now, site.frequency)
                   then CheckSite(site, v.outcome) else None;
    match checked
    case Some(c) =>
      ClassifyRoundTrip(site, v.outcome.probe, v.outcome.latency, v.outcome.finishedAt, c);
      [c]
    case None => []
  }

  /** One record per re-checked site, in list order, each judged against the starting store. */
  function DashboardRecords(checks: seq<Check>, sites: seq<Site>, now: int, visits: seq<Visit>): (r: seq<Check>)
    requires |visits| == |sites|
    decreases |sites|
  {
    if |sites| == 0 then []
    else VisitRecord(checks, sites[0], now, visits[0]) + DashboardRecords(checks, sites[1..], now, visits[1..])
  }

  /** A record for another site does not change a site's newest check. */
  lemma {:induction false} NewestIgnoresOtherSites(checks: seq<Check>, c: Check, siteId: int)
    requires c.siteId != siteId
    ensures NewestFor(checks + [c], siteId) == NewestFor(checks, siteId)
  {
    if |checks| > 0 {
      assert (checks + [c])[1..] == checks[1..] + [c];
      NewestIgnoresOtherSites(checks[1..], c, siteId);
    } else {
      assert (checks + [c])[1..] == [];
    }
  }

  lemma {:induction false} DashboardRecordsIgnoreOtherSites(checks: seq<Check>, c: Check, sites: seq<Site>, now: int, visits: seq<Visit>)
    requires |visits| == |sites|
    requires forall i :: 0 <= i < |sites| ==> sites[i].id != c.siteId
    ensures DashboardRecords(checks + [c], sites, now, visits) == DashboardRecords(checks, sites, now, visits)
    decreases |sites|
  {
    if |sites| > 0 {
      NewestIgnoresOtherSites(checks, c, sites[0].id);
      DashboardRecordsIgnoreOtherSites(checks, c, sites[1..], now, visits[1..]);
    }
  }

  /** The first site's new record does not change what the later, differently named sites do. */
  lemma FirstVisitKeepsLaterRecords(checks: seq<Check>, sites: seq<Site>, now: int, visits: seq<Visit>)
    requires |visits| == |sites| && |sites| > 0
    requires DistinctIds(sites)
    ensures DashboardRecords(checks + VisitRecord(checks, sites[0], now, visits[0]), sites[1..], now, visits[1..])
      == DashboardRecords(checks, sites[1..], now, visits[1..])
  {
    var first := VisitRecord(checks, sites[0], now, visits[0]);
    var tail := sites[1..];
    if first != [] {
      assert forall i :: 0 <= i < |tail| ==> tail[i].id != first[0].siteId by {
        assert forall i :: 0 <= i < |tail| ==> tail[i] == sites[i + 1];
      }
      DashboardRecordsIgnoreOtherSites(checks, first[0], tail, now, visits[1..]);
      assert checks + first == checks + [first[0]];
    } else {
      assert checks + first == checks;
    }
  }

  /** One step of the dashboard pass and of its description. */
  lemma DashboardStep(checks: seq<Check>, sites: seq<Site>, now: int, visits: seq<Visit>)
    requires |visits| == |sites| && |sites| > 0
    ensures Dashboard(checks, sites, now, visits) ==
      Dashboard(checks + VisitRecord(checks, sites[0], now, visits[0]), sites[1..], now, visits[1..])
    ensures DashboardRecords(checks, sites, now, visits) ==
      VisitRecord(checks, sites[0], now, visits[0]) + DashboardRecords(checks, sites[1..], now, visits[1..])
  {
  }

  /**
   * With distinct site ids, the dashboard appends exactly one record per
   * site that was stale when the page was requested and whose check
   * returned, in list order; nothing already stored changes.
   */
  lemma {:induction false} DashboardMatchesSnapshot(checks: seq<Check>, sites: seq<Site>, now: int, visits: seq<Visit>)
    requires |visits| == |sites|
    requires DistinctIds(sites)
    ensures Dashboard(checks, sites, now, visits) == checks + DashboardRecords(checks, sites, now, visits)
    decreases |sites|
  {
    if |sites| > 0 {
      var tail, later := sites[1..], visits[1..];
      var first := VisitRecord(checks, sites[0], now, visits[0]);
      DistinctTail(sites);
      DashboardMatchesSnapshot(checks + first, tail, now, later);
      FirstVisitKeepsLaterRecords(checks, sites, now, visits);
      DashboardStep(checks, sites, now, visits);
      SeqAssoc(checks, first, DashboardRecords(checks, tail, now, later));
    }
  }

  /**
   * A site whose re-check raises leaves no trace on the dashboard pass: the
   * result is that of the same pass with the site left out.
   */
  lemma {:induction false} DashboardCrashLeavesNoTrace(checks: seq<Check>, sites: seq<Site>, now: int, visits: seq<Visit>, i: int)
    requires |visits| == |sites|
    requires 0 <= i < |sites| && visits[i].outcome.Crash?
    ensures Dashboard(checks, sites, now, visits) ==
      Dashboard(checks, RemoveAt(sites, i), now, RemoveAt(visits, i))
    decreases i
  {
    RemoveAtHead(sites, i);
    RemoveAtHead(visits, i);
    if i == 0 {
      assert checks + VisitRecord(checks, sites[0], now, visits[0]) == checks;
    } else {
      var checks1 := checks + VisitRecord(checks, sites[0], now, visits[0]);
      DashboardCrashLeavesNoTrace(checks1, sites[1..], now, visits[1..], i - 1);
    }
  }

  // ---------------------------------------------------------------------
  // check_site_now
  // ---------------------------------------------------------------------

  /** The JSON reply of a manual check, or why there is none. */
  datatype CheckNowReply =
    | Checked(isUp: bool, responseTime: int, statusCode: int, timestamp: int)
    | SiteNotFound
    | CheckFailed

  /** `check_site_now`: 404 for an unknown site, otherwise one check and its fields, or 400 if the check raised. */
  function CheckNow(store: Store, siteId: int, outcome: Outcome): (r: Handled<CheckNowReply>)
    ensures !HasSite(store.sites, siteId) ==> r == Handled(store, SiteNotFound)
    ensures HasSite(store.sites, siteId) && outcome.Crash? ==> r == Handled(store, CheckFailed)
    ensures r.store.sites == store.sites && store.checks <= r.store.checks
    ensures r.reply.Checked? <==> HasSite(store.sites, siteId) && outcome.Completed?
    ensures r.reply.Checked? ==>
      && |r.store.checks| == |store.checks| + 1
      && var c := r.store.checks[|store.checks|];
      && c.siteId == siteId && WellFormed(c)
      && r.reply == Checked(c.isUp, c.responseTime, c.statusCode, c.timestamp)
      && ProbeOf(c) == outcome.probe
      && c.timestamp == outcome.finishedAt && c.responseTime == outcome.latency
  {
    match FindSite(store.sites, siteId)
    case None => Handled(store, SiteNotFound)
    case Some(site) =>
      match CheckSite(site, outcome)
      case None => Handled(store, CheckFailed)
      case Some(c) =>
        ClassifyRoundTrip(site, outcome.probe, outcome.latency, outcome.finishedAt, c);
        Handled(Store(store.sites, store.checks + [c]),
                Checked(c.isUp, c.responseTime, c.statusCode, c.timestamp))
  }

  // ---------------------------------------------------------------------
  // delete_site
  // ---------------------------------------------------------------------

  datatype DeleteReply = Deleted | DeleteNotFound | DeleteFailed

  /** `delete_site`: the site and all of its checks go together, or nothing changes. */
  function DeleteSite(store: Store, siteId: int, commitOk: bool): (r: Handled<DeleteReply>)
    ensures !HasSite(store.sites, siteId) ==> r == Handled(store, DeleteNotFound)
    ensures HasSite(store.sites, siteId) && !commitOk ==> r == Handled(store, DeleteFailed)
    ensures r.reply == Deleted <==> HasSite(store.sites, siteId) && commitOk
    ensures r.reply == Deleted ==>
      && !HasSite(r.store.sites, siteId)
      && (forall c :: c in r.store.checks ==> c.siteId != siteId)
      && (forall s :: s in r.store.sites <==> s in store.sites && s.id != siteId)
      && (forall c :: c in r.store.checks <==> c in store.checks && c.siteId != siteId)
      && |r.store.sites| < |store.sites|
    ensures r.reply == Deleted ==>
      forall c :: multiset(r.store.checks)[c] == if c.siteId == siteId then 0 else multiset(store.checks)[c]
    ensures r.reply == Deleted ==>
      forall s :: multiset(r.store.sites)[s] == if s.id == siteId then 0 else multiset(store.sites)[s]
  {
    if !HasSite(store.sites, siteId) then Handled(store, DeleteNotFound)
    else if !commitOk then Handled(store, DeleteFailed)
    else
      var sites := Filter(store.sites, (s: Site) => s.id != siteId);
      var checks := Filter(store.checks, (c: Check) => c.siteId != siteId);
      assert |sites| < |store.sites| by {
        var gone :| gone in store.sites && gone.id == siteId;
        FilterDrops(store.sites, (s: Site) => s.id != siteId, gone);
      }
      FilterCounts(store.sites, (s: Site) => s.id != siteId);
      FilterCounts(store.checks, (c: Check) => c.siteId != siteId);
      Handled(Store(sites, checks), Deleted)
  }

  // ---------------------------------------------------------------------
  // site_history
  // ---------------------------------------------------------------------

  const DefaultHistoryDays: int := 7
  const SecondsPerDay: int := 86400
  /** The largest number of days a `timedelta` holds, in either direction. */
  const MaxDeltaDays: int := 999999999
  /** The earliest and latest whole seconds a `datetime` holds (years 1 to 9999), counted from 1970-01-01. */
  const MinTime: int := -62135596800
  const MaxTime: int := 253402300799

  /**
   * The start of the history window: `days` days back from `now`, seven
   * when not given. None is the `OverflowError` the date arithmetic raises
   * when `days` is too large for a `timedelta` or the start falls outside
   * the years 1 to 9999; the route then fails.
   */
  function HistoryStart(now: int, days: Option<int>): (since: Option<int>)
    ensures days.None? ==> (since.Some? <==> MinTime <= now - 7 * 86400 <= MaxTime)
    ensures days.None? && since.Some? ==> now - since.value == 7 * 86400
    ensures days.Some? ==>
      (since.Some? <==> -999999999 <= days.value <= 999999999 && MinTime <= now - days.value * 86400 <= MaxTime)
    ensures days.Some? && since.Some? ==> now - since.value == days.value * 86400
  {
    var d := days.GetOr(DefaultHistoryDays);
    if d < -MaxDeltaDays || d > MaxDeltaDays then None
    else
      var start := now - d * SecondsPerDay;
      if start < MinTime || start > MaxTime then None else Some(start)
  }

  /** A window reaching before year 1 fails: 800000 days back from any time in 1970 to 2099. */
  lemma FarPastWindowFails(now: int)
    requires 0 <= now < 4102444800
    ensures HistoryStart(now, Some(800000)).None?
    ensures HistoryStart(now, None).Some?
  {
  }

  /** A check in the history window of a site. */
  predicate InWindow(c: Check, siteId: int, since: int) {
    c.siteId == siteId && c.timestamp >= since
  }

  /** The history query: the site's checks since `since`, oldest first. */
  function HistoryChecks(checks: seq<Check>, siteId: int, since: int): (r: seq<Check>)
    ensures Ascending(r)
    ensures forall c :: multiset(r)[c] == if InWindow(c, siteId, since) then multiset(checks)[c] else 0
    ensures forall c :: c in r <==> c in checks && InWindow(c, siteId, since)
  {
    var keep := (c: Check) => InWindow(c, siteId, since);
    FilterCounts(checks, keep);
    SortByTime(Filter(checks, keep))
  }

  /** The three parallel lists of the history reply. */
  datatype History = History(times: seq<int>, responseTimes: seq<int>, upStatus: seq<bool>)

  /** The reply's three lists, read off `sel` entry by entry. */
  function Columns(sel: seq<Check>): (h: History)
    ensures |h.times| == |h.responseTimes| == |h.upStatus| == |sel|
    ensures forall k :: 0 <= k < |sel| ==>
      h.times[k] == sel[k].timestamp && h.responseTimes[k] == sel[k].responseTime && h.upStatus[k] == sel[k].isUp
  {
    History(
      seq(|sel|, k requires 0 <= k < |sel| => sel[k].timestamp),
      seq(|sel|, k requires 0 <= k < |sel| => sel[k].responseTime),
      seq(|sel|, k requires 0 <= k < |sel| => sel[k].isUp))
  }

  /** `site_history`: one entry per check of the window, oldest first, the three lists index-aligned. */
  function SiteHistory(checks: seq<Check>, siteId: int, since: int): (h: History)
    ensures |h.times| == |h.responseTimes| == |h.upStatus| == |HistoryChecks(checks, siteId, since)|
    ensures forall k :: 0 <= k < |h.times| ==>
      var c := HistoryChecks(checks, siteId, since)[k];
      h.times[k] == c.timestamp && h.responseTimes[k] == c.responseTime && h.upStatus[k] == c.isUp
    ensures forall i, j :: 0 <= i < j < |h.times| ==> h.times[i] <= h.times[j]
    ensures forall k :: 0 <= k < |h.times| ==> h.times[k] >= since
  {
    var sel := HistoryChecks(checks, siteId, since);
    assert forall k :: 0 <= k < |sel| ==> sel[k] in sel;
    Columns(sel)
  }

  /** After a site is deleted, its history is empty. */
  lemma DeletedSiteHasNoHistory(store: Store, siteId: int, since: int)
    requires HasSite(store.sites, siteId)
    ensures SiteHistory(DeleteSite(store, siteId, true).store.checks, siteId, since).times == []
  {
  }

  /** Deleting one site leaves the history of every other site exactly as it was. */
  lemma DeleteKeepsOtherHistories(store: Store, siteId: int, other: int, since: int)
    requires other != siteId
    ensures SiteHistory(DeleteSite(store, siteId, true).store.checks, other, since) ==
      SiteHistory(store.checks, other, since)
  {
    if HasSite(store.sites, siteId) {
      var wide := (c: Check) => c.siteId != siteId;
      var narrow := (c: Check) => InWindow(c, other, since);
      FilterNarrow(store.checks, wide, narrow);
    }
  }
}
