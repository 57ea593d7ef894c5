/**
 * The persistent records of the uptime monitor: monitored sites and the
 * checks recorded against them, held in an abstract store.
 *
 * Time is a whole number of seconds. A check's response time, a float in
 * the program, is an abstract integer duration here.
 */
module Models {
  import opened Wrappers
  import opened Sequences

  /** Column default of `Site.frequency`: seconds between scheduled checks. */
  const DefaultFrequency: int := 300
  /** Column default of `Site.alert_threshold`. */
  const DefaultAlertThreshold: int := 3

  datatype Site = Site(
    id: int,
    url: string,
    frequency: int,
    alertThreshold: int,
    alertEmail: Option<string>)

  /** One probe outcome as persisted. `error` is only set when no response arrived. */
  datatype Check = Check(
    siteId: int,
    timestamp: int,
    responseTime: int,
    isUp: bool,
    statusCode: int,
    error: Option<string>)

  /** The database: every site row and every check row, in insertion order. */
  datatype Store = Store(sites: seq<Site>, checks: seq<Check>)

  /** Site ids are a primary key: no two rows share one. */
  predicate DistinctIds(sites: seq<Site>) {
    forall i, j :: 0 <= i < j < |sites| ==> sites[i].id != sites[j].id
  }

  lemma DistinctTail(sites: seq<Site>)
    requires |sites| > 0 && DistinctIds(sites)
    ensures DistinctIds(sites[1..])
  {
    assert forall i :: 0 <= i < |sites| - 1 ==> sites[1..][i] == sites[i + 1];
  }

  /** No two of the records belong to the same site. */
  predicate OnePerSite(records: seq<Check>) {
    forall i, j :: 0 <= i < j < |records| ==> records[i].siteId != records[j].siteId
  }

  /** A record for one site in front of records for other sites keeps them one per site. */
  lemma PrependOnePerSite(head: seq<Check>, rest: seq<Check>, id: int)
    requires |head| <= 1 && forall c :: c in head ==> c.siteId == id
    requires OnePerSite(rest) && forall c :: c in rest ==> c.siteId != id
    ensures OnePerSite(head + rest)
  {
    assert forall j :: 0 <= j < |rest| ==> rest[j] in rest;
  }

  /** With distinct ids, a site listed after the first has another id. */
  lemma TailHasOtherIds(sites: seq<Site>)
    requires |sites| > 0 && DistinctIds(sites)
    ensures forall id :: HasSite(sites[1..], id) ==> id != sites[0].id
  {
    forall id | HasSite(sites[1..], id) ensures id != sites[0].id {
      var s :| s in sites[1..] && s.id == id;
      var k :| 0 <= k < |sites[1..]| && sites[1..][k] == s;
      assert sites[k + 1] == s;
    }
  }

  predicate HasSite(sites: seq<Site>, id: int) {
    exists s :: s in sites && s.id == id
  }

  /** A new site row; a missing frequency or alert threshold takes its column default. */
  function NewSite(id: int, url: string, frequency: Option<int>, alertThreshold: Option<int>,
                   alertEmail: Option<string>): (s: Site)
    ensures s.id == id && s.url == url && s.alertEmail == alertEmail
    ensures frequency.None? ==> s.frequency == 300
    ensures frequency.Some? ==> s.frequency == frequency.value
    ensures alertThreshold.None? ==> s.alertThreshold == 3
    ensures alertThreshold.Some? ==> s.alertThreshold == alertThreshold.value
  {
    Site(id, url, frequency.GetOr(DefaultFrequency), alertThreshold.GetOr(DefaultAlertThreshold), alertEmail)
  }

  /** The first site row with the given id, as a primary-key lookup finds it. */
  function FindSite(sites: seq<Site>, id: int): (r: Option<Site>)
    ensures r.None? <==> !HasSite(sites, id)
    ensures r.Some? ==> r.value in sites && r.value.id == id
  {
    if |sites| == 0 then None
    else if sites[0].id == id then Some(sites[0])
    else FindSite(sites[1..], id)
  }

  /** The checks recorded against one site, in store order. */
  function ChecksFor(checks: seq<Check>, siteId: int): (r: seq<Check>)
    ensures forall c :: c in r <==> c in checks && c.siteId == siteId
  {
    Filter(checks, (c: Check) => c.siteId == siteId)
  }

  /**
   * The newest check of a site: the query "checks of this site, newest
   * first, take the first". Among checks with equal timestamps the one
   * earliest in the store is returned; the database leaves that choice open.
   */
  function NewestFor(checks: seq<Check>, siteId: int): (r: Option<Check>)
    ensures r.None? <==> forall c :: c in checks ==> c.siteId != siteId
    ensures r.Some? ==> r.value in checks && r.value.siteId == siteId
    ensures r.Some? ==> forall c :: c in checks && c.siteId == siteId ==> c.timestamp <= r.value.timestamp
  {
    if |checks| == 0 then None
    else
      var rest := NewestFor(checks[1..], siteId);
      var c := checks[0];
      assert forall d :: d in checks <==> d == c || d in checks[1..];
      if c.siteId != siteId then rest
      else if rest.Some? && rest.value.timestamp > c.timestamp then rest
      else Some(c)
  }

  /**
   * `Site.latest_check`: the newest check of the site, or None when it has
   * none. A failing lookup is swallowed and also reads as None.
   */
  function LatestCheck(site: Site, checks: seq<Check>, lookupFailed: bool): (r: Option<Check>)
    ensures lookupFailed ==> r.None?
    ensures !lookupFailed ==> (r.None? <==> forall c :: c in checks ==> c.siteId != site.id)
    ensures r.Some? ==> r.value in checks && r.value.siteId == site.id
    ensures r.Some? ==> forall c :: c in checks && c.siteId == site.id ==> c.timestamp <= r.value.timestamp
  {
    if lookupFailed then None else NewestFor(checks, site.id)
  }

  /** Timestamps never decrease along `s`. */
  predicate Ascending(s: seq<Check>) {
    forall i, j :: 0 <= i < j < |s| ==> s[i].timestamp <= s[j].timestamp
  }

  /** Timestamps never increase along `s`. */
  predicate Descending(s: seq<Check>) {
    forall i, j :: 0 <= i < j < |s| ==> s[i].timestamp >= s[j].timestamp
  }

  function Insert(c: Check, s: seq<Check>): (r: seq<Check>)
    requires Ascending(s)
    ensures Ascending(r)
    ensures multiset(r) == multiset(s) + multiset{c}
    ensures r[0] == c || (|s| > 0 && r[0] == s[0])
  {
    if |s| == 0 then [c]
    else if c.timestamp <= s[0].timestamp then [c] + s
    else
      var tail := Insert(c, s[1..]);
      assert s == [s[0]] + s[1..];
      assert s[0].timestamp <= tail[0].timestamp;
      [s[0]] + tail
  }

  /** The checks of `s` ordered by ascending timestamp (`ORDER BY timestamp ASC`). */
  function SortByTime(s: seq<Check>): (r: seq<Check>)
    ensures Ascending(r)
    ensures multiset(r) == multiset(s)
  {
    if |s| == 0 then []
    else
      assert s == [s[0]] + s[1..];
      Insert(s[0], SortByTime(s[1..]))
  }

  /** The `Site.checks` relationship: the site's checks, newest first. */
  function SiteChecks(site: Site, checks: seq<Check>): (r: seq<Check>)
    ensures Descending(r)
    ensures multiset(r) == multiset(ChecksFor(checks, site.id))
  {
    Reverse(SortByTime(ChecksFor(checks, site.id)))
  }

  /**
   * The first element of the `checks` relationship agrees with
   * `latest_check`: both are absent together, and otherwise they carry the
   * same timestamp.
   */
  lemma SiteChecksHeadIsLatest(site: Site, checks: seq<Check>)
    ensures SiteChecks(site, checks) == [] <==> LatestCheck(site, checks, false).None?
    ensures SiteChecks(site, checks) != [] ==>
      SiteChecks(site, checks)[0].timestamp == LatestCheck(site, checks, false).value.timestamp
  {
    var r := SiteChecks(site, checks);
    var mine := ChecksFor(checks, site.id);
    var latest := LatestCheck(site, checks, false);
    if r == [] {
      assert multiset(mine) == multiset{};
      assert mine == [];
    } else {
      assert r[0] in multiset(r);
      assert r[0] in mine;
      var l := latest.value;
      assert l in mine;
      assert l in multiset(r);
      assert l in r;
      var k :| 0 <= k < |r| && r[k] == l;
      assert k == 0 || r[0].timestamp >= r[k].timestamp;
    }
  }
}
