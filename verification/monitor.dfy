/**
 * The background monitor: classifying one probe (`check_site`) and one
 * iteration of the scheduling loop (`monitor_sites`).
 *
 * The HTTP request, the database commit and the clocks are not computed
 * here: what they produced for a site is an `Outcome` supplied by the
 * caller, and the loop's `current_time` snapshot is the parameter `now`.
 */
module Monitor {
  import opened Wrappers
  import opened Sequences
  import opened Models

  /** What the HTTP GET produced: a response with a status code, or a request exception. */
  datatype Probe = Response(status: int) | RequestFail(message: string)

  /**
   * What one call of `check_site` did. `Completed` carries the probe, its
   * measured latency and the clock reading stamped on the record; `Crash`
   * is any other exception (a failed commit, say): no record is kept.
   */
  datatype Outcome = Completed(probe: Probe, latency: int, finishedAt: int) | Crash

  /** Status codes below this are "up": the 1xx, 2xx and 3xx classes. */
  const UpBelow: int := 400

  /** The record `check_site` builds from a probe. */
  function Classify(site: Site, probe: Probe, latency: int, at: int): (c: Check)
    ensures c.siteId == site.id && c.timestamp == at && c.responseTime == latency
    ensures c.isUp <==> probe.Response? && probe.status < 400
    ensures probe.Response? ==> c.statusCode == probe.status && c.error.None?
    ensures probe.RequestFail? ==> !c.isUp && c.statusCode == 0 && c.error == Some(probe.message)
  {
    match probe
    case Response(status) => Check(site.id, at, latency, status < UpBelow, status, None)
    case RequestFail(message) => Check(site.id, at, latency, false, 0, Some(message))
  }

  /** A record as `check_site` can write it: up only below 400, and an error only with code 0. */
  predicate WellFormed(c: Check) {
    match c.error
    case Some(_) => !c.isUp && c.statusCode == 0
    case None => c.isUp <==> c.statusCode < UpBelow
  }

  /** The probe a record describes: the inverse of `Classify`. */
  function ProbeOf(c: Check): (p: Probe)
    ensures p.RequestFail? <==> c.error.Some?
  {
    match c.error
    case Some(message) => RequestFail(message)
    case None => Response(c.statusCode)
  }

  /**
   * Classification loses nothing and invents nothing: every record it
   * builds is well formed and gives back its probe, and every well-formed
   * record is the classification of the probe it describes.
   */
  lemma ClassifyRoundTrip(site: Site, probe: Probe, latency: int, at: int, c: Check)
    ensures WellFormed(Classify(site, probe, latency, at))
    ensures ProbeOf(Classify(site, probe, latency, at)) == probe
    ensures WellFormed(c) && c.siteId == site.id ==>
      Classify(site, ProbeOf(c), c.responseTime, c.timestamp) == c
  {
  }

  /** The five classes of section 15 of RFC 9110, told apart by the first digit. */
  datatype StatusClass = Informational | Successful | Redirection | ClientError | ServerError

  function ClassOf(code: int): (r: Option<StatusClass>)
    ensures r.Some? <==> 100 <= code <= 599
  {
    if code < 100 || code > 599 then None
    else if code < 200 then Some(Informational)
    else if code < 300 then Some(Successful)
    else if code < 400 then Some(Redirection)
    else if code < 500 then Some(ClientError)
    else Some(ServerError)
  }

  /** For a standard status code, "up" means neither a client nor a server error. */
  lemma UpMeansNoErrorClass(site: Site, code: int, latency: int, at: int)
    requires 100 <= code <= 599
    ensures Classify(site, Response(code), latency, at).isUp <==>
      ClassOf(code).value !in {ClientError, ServerError}
  {
  }

  /** `check_site` as a whole: exactly one record, or the exception it let through. */
  function CheckSite(site: Site, outcome: Outcome): (r: Option<Check>)
    ensures r.None? <==> outcome.Crash?
    ensures r.Some? ==> r.value == Classify(site, outcome.probe, outcome.latency, outcome.finishedAt)
  {
    match outcome
    case Completed(probe, latency, at) => Some(Classify(site, probe, latency, at))
    case Crash => None
  }

  /** The scheduler's bookkeeping: site id to the snapshot time of its last returned check. */
  type LastCheck = map<int, int>

  /** A site is due when it was never checked or `frequency` seconds have passed. */
  predicate Due(last: LastCheck, site: Site, now: int) {
    site.id !in last || now - last[site.id] >= site.frequency
  }

  /** Two bookkeeping maps hold the same entry, or the same absence, for `id`. */
  predicate SameEntry(a: LastCheck, b: LastCheck, id: int) {
    (id in a <==> id in b) && (id in a ==> a[id] == b[id])
  }

  /**
   * The due test reads nothing but the clock, the site and the site's own
   * entry; in particular asking twice gives the same answer.
   */
  lemma DueReadsOwnEntry(a: LastCheck, b: LastCheck, site: Site, now: int)
    requires SameEntry(a, b, site.id)
    ensures Due(a, site, now) <==> Due(b, site, now)
  {
  }

  datatype TickResult = TickResult(last: LastCheck, records: seq<Check>)

  /**
   * One pass of the loop body over the listed sites, in order: each due
   * site is checked, and when the check returns its entry becomes `now`.
   * A check that raises is caught for that site alone: no entry change,
   * no record, and the pass goes on with the next site.
   * `outcomes[i]` is what checking `sites[i]` would do.
   */
  function Tick(last: LastCheck, sites: seq<Site>, now: int, outcomes: seq<Outcome>): (r: TickResult)
    requires |outcomes| == |sites|
    ensures forall k :: k in last ==> k in r.last
    ensures forall k :: k in r.last ==>
      (k in last && r.last[k] == last[k]) || (r.last[k] == now && HasSite(sites, k))
    ensures forall c :: c in r.records ==> HasSite(sites, c.siteId) && WellFormed(c)
    ensures |r.records| <= |sites|
    decreases |sites|
  {
    if |sites| == 0 then TickResult(last, [])
    else
      var site := sites[0];
      var checked := if Due(last, site, now) then CheckSite(site, outcomes[0]) else None;
      var last1 := if checked.Some? then last[site.id := now] else last;
      var rest := Tick(last1, sites[1..], now, outcomes[1..]);
      assert forall s :: s in sites[1..] ==> s in sites;
      assert checked.Some? ==> WellFormed(checked.value) by {
        if checked.Some? {
          ClassifyRoundTrip(site, outcomes[0].probe, outcomes[0].latency, outcomes[0].finishedAt, checked.value);
        }
      }
      TickResult(rest.last, (if checked.Some? then [checked.value] else []) + rest.records)
  }

  /** The loop's `try` around a whole iteration: if listing the sites fails, the iteration is skipped. */
  function LoopIteration(last: LastCheck, listing: Option<seq<Site>>, now: int, outcomes: seq<Outcome>): (r: TickResult)
    requires listing.Some? ==> |outcomes| == |listing.value|
    ensures listing.None? ==> r.last == last && r.records == []
    ensures listing.Some? ==> r == Tick(last, listing.value, now, outcomes)
  {
    match listing
    case None => TickResult(last, [])
    case Some(sites) => Tick(last, sites, now, outcomes)
  }

  // ---------------------------------------------------------------------
  // A snapshot description of a tick. With distinct site ids, a tick acts
  // as if every due test were made against the map as it was when the
  // tick began.
  // ---------------------------------------------------------------------

  /** A site whose entry a tick refreshes: due at the start of the tick, and its check returned. */
  predicate Refreshes(last: LastCheck, site: Site, now: int, outcome: Outcome) {
    Due(last, site, now) && outcome.Completed?
  }

  function RefreshedIds(last: LastCheck, sites: seq<Site>, now: int, outcomes: seq<Outcome>): set<int>
    requires |outcomes| == |sites|
  {
    set i | 0 <= i < |sites| && Refreshes(last, sites[i], now, outcomes[i]) :: sites[i].id
  }

  /** Refreshed sites hold `now`; every other entry is as before. */
  function ExpectedLast(last: LastCheck, sites: seq<Site>, now: int, outcomes: seq<Outcome>): LastCheck
    requires |outcomes| == |sites|
  {
    var ids := RefreshedIds(last, sites, now, outcomes);
    map k | k in last.Keys + ids :: if k in ids then now else last[k]
  }

  /** One record per refreshed site, in list order, each judged against the starting map. */
  function ExpectedRecords(last: LastCheck, sites: seq<Site>, now: int, outcomes: seq<Outcome>): (r: seq<Check>)
    requires |outcomes| == |sites|
    ensures forall c :: c in r ==>
      (exists i :: 0 <= i < |sites| && Refreshes(last, sites[i], now, outcomes[i])
        && c == Classify(sites[i], outcomes[i].probe, outcomes[i].latency, outcomes[i].finishedAt))
    ensures forall i :: 0 <= i < |sites| && Refreshes(last, sites[i], now, outcomes[i]) ==>
      Classify(sites[i], outcomes[i].probe, outcomes[i].latency, outcomes[i].finishedAt) in r
    decreases |sites|
  {
    if |sites| == 0 then []
    else
      var o := outcomes[0];
      var rest := ExpectedRecords(last, sites[1..], now, outcomes[1..]);
      assert forall i :: 0 < i < |sites| ==> sites[i] == sites[1..][i - 1] && outcomes[i] == outcomes[1..][i - 1];
      (if Refreshes(last, sites[0], now, o) then [Classify(sites[0], o.probe, o.latency, o.finishedAt)] else [])
        + rest
  }

  lemma {:induction false} ExpectedRecordsReadsListedEntries(a: LastCheck, b: LastCheck, sites: seq<Site>, now: int, outcomes: seq<Outcome>)
    requires |outcomes| == |sites|
    requires forall i :: 0 <= i < |sites| ==> SameEntry(a, b, sites[i].id)
    ensures ExpectedRecords(a, sites, now, outcomes) == ExpectedRecords(b, sites, now, outcomes)
    ensures RefreshedIds(a, sites, now, outcomes) == RefreshedIds(b, sites, now, outcomes)
    decreases |sites|
  {
    if |sites| > 0 {
      ExpectedRecordsReadsListedEntries(a, b, sites[1..], now, outcomes[1..]);
    }
  }

  /** The starting map of the rest of the tick, once the first site has been handled. */
  function AfterFirst(last: LastCheck, site: Site, now: int, outcome: Outcome): LastCheck {
    if Refreshes(last, site, now, outcome) then last[site.id := now] else last
  }

  /** One step of the tick: the first site's record, then the rest of the tick from `AfterFirst`. */
  lemma TickStep(last: LastCheck, sites: seq<Site>, now: int, outcomes: seq<Outcome>)
    requires |outcomes| == |sites| && |sites| > 0
    ensures var rest := Tick(AfterFirst(last, sites[0], now, outcomes[0]), sites[1..], now, outcomes[1..]);
      Tick(last, sites, now, outcomes) == TickResult(rest.last,
        (if Refreshes(last, sites[0], now, outcomes[0])
         then [Classify(sites[0], outcomes[0].probe, outcomes[0].latency, outcomes[0].finishedAt)] else [])
        + rest.records)
  {
  }

  /** With distinct ids a tick makes at most one record per site. */
  lemma {:induction false} TickOnePerSite(last: LastCheck, sites: seq<Site>, now: int, outcomes: seq<Outcome>)
    requires |outcomes| == |sites|
    requires DistinctIds(sites)
    ensures OnePerSite(Tick(last, sites, now, outcomes).records)
    decreases |sites|
  {
    if |sites| > 0 {
      var last1 := AfterFirst(last, sites[0], now, outcomes[0]);
      DistinctTail(sites);
      TailHasOtherIds(sites);
      TickOnePerSite(last1, sites[1..], now, outcomes[1..]);
      TickStep(last, sites, now, outcomes);
      var first := if Refreshes(last, sites[0], now, outcomes[0])
        then [Classify(sites[0], outcomes[0].probe, outcomes[0].latency, outcomes[0].finishedAt)] else [];
      PrependOnePerSite(first, Tick(last1, sites[1..], now, outcomes[1..]).records, sites[0].id);
    }
  }

  lemma RefreshedIdsSplit(last: LastCheck, sites: seq<Site>, now: int, outcomes: seq<Outcome>)
    requires |outcomes| == |sites| && |sites| > 0
    requires DistinctIds(sites)
    ensures RefreshedIds(last, sites, now, outcomes) ==
      (if Refreshes(last, sites[0], now, outcomes[0]) then {sites[0].id} else {})
      + RefreshedIds(last, sites[1..], now, outcomes[1..])
    ensures sites[0].id !in RefreshedIds(last, sites[1..], now, outcomes[1..])
  {
    var tail, otail := sites[1..], outcomes[1..];
    var ids := RefreshedIds(last, sites, now, outcomes);
    var tailIds := RefreshedIds(last, tail, now, otail);
    forall k | k in ids
      ensures k in (if Refreshes(last, sites[0], now, outcomes[0]) then {sites[0].id} else {}) + tailIds
    {
      var i :| 0 <= i < |sites| && Refreshes(last, sites[i], now, outcomes[i]) && sites[i].id == k;
      if i > 0 {
        assert tail[i - 1] == sites[i] && otail[i - 1] == outcomes[i];
      }
    }
    forall k | k in tailIds ensures k in ids && k != sites[0].id {
      var i :| 0 <= i < |tail| && Refreshes(last, tail[i], now, otail[i]) && tail[i].id == k;
      assert sites[i + 1] == tail[i] && outcomes[i + 1] == otail[i];
    }
  }

  /** Later sites have other ids, so the first site's update does not change how they are judged. */
  lemma AfterFirstKeepsTail(last: LastCheck, sites: seq<Site>, now: int, outcomes: seq<Outcome>)
    requires |outcomes| == |sites| && |sites| > 0
    requires DistinctIds(sites)
    ensures ExpectedRecords(AfterFirst(last, sites[0], now, outcomes[0]), sites[1..], now, outcomes[1..]) ==
      ExpectedRecords(last, sites[1..], now, outcomes[1..])
    ensures RefreshedIds(AfterFirst(last, sites[0], now, outcomes[0]), sites[1..], now, outcomes[1..]) ==
      RefreshedIds(last, sites[1..], now, outcomes[1..])
  {
    var tail := sites[1..];
    var last1 := AfterFirst(last, sites[0], now, outcomes[0]);
    assert forall i :: 0 <= i < |tail| ==> tail[i] == sites[i + 1];
    assert forall i :: 0 <= i < |tail| ==> SameEntry(last1, last, tail[i].id);
    ExpectedRecordsReadsListedEntries(last1, last, tail, now, outcomes[1..]);
  }

  /** Handling the first site and describing the rest agrees with describing the whole list. */
  lemma ExpectedLastStep(last: LastCheck, sites: seq<Site>, now: int, outcomes: seq<Outcome>)
    requires |outcomes| == |sites| && |sites| > 0
    requires DistinctIds(sites)
    ensures ExpectedLast(last, sites, now, outcomes) ==
      ExpectedLast(AfterFirst(last, sites[0], now, outcomes[0]), sites[1..], now, outcomes[1..])
  {
    var last1 := AfterFirst(last, sites[0], now, outcomes[0]);
    AfterFirstKeepsTail(last, sites, now, outcomes);
    RefreshedIdsSplit(last, sites, now, outcomes);
    var ids := RefreshedIds(last, sites, now, outcomes);
    var tailIds := RefreshedIds(last, sites[1..], now, outcomes[1..]);
    var lhs := ExpectedLast(last, sites, now, outcomes);
    var rhs := ExpectedLast(last1, sites[1..], now, outcomes[1..]);
    assert last.Keys + ids == last1.Keys + tailIds;
    assert lhs.Keys == rhs.Keys;
    forall k | k in lhs.Keys ensures lhs[k] == rhs[k] {
      if k in tailIds {
        assert lhs[k] == now == rhs[k];
      } else if k == sites[0].id {
        assert lhs[k] == last1[k] == rhs[k];
      } else {
        assert lhs[k] == last[k] == last1[k] == rhs[k];
      }
    }
  }

  /**
   * With distinct site ids the tick matches the snapshot description: the
   * entry of every site refreshed this tick is `now`, all other entries
   * (unlisted, not due, or crashed) are unchanged, and the records are one
   * per refreshed site in list order.
   */
  lemma {:induction false} TickMatchesSnapshot(last: LastCheck, sites: seq<Site>, now: int, outcomes: seq<Outcome>)
    requires |outcomes| == |sites|
    requires DistinctIds(sites)
    ensures Tick(last, sites, now, outcomes).last == ExpectedLast(last, sites, now, outcomes)
    ensures Tick(last, sites, now, outcomes).records == ExpectedRecords(last, sites, now, outcomes)
    decreases |sites|
  {
    if |sites| == 0 {
      assert RefreshedIds(last, sites, now, outcomes) == {};
    } else {
      var tail, otail := sites[1..], outcomes[1..];
      var last1 := AfterFirst(last, sites[0], now, outcomes[0]);
      DistinctTail(sites);
      TickMatchesSnapshot(last1, tail, now, otail);
      ExpectedLastStep(last, sites, now, outcomes);
      AfterFirstKeepsTail(last, sites, now, outcomes);
    }
  }

  /**
   * A site whose check returned this tick, up or down, is not checked
   * again until `frequency` seconds after this tick's snapshot.
   */
  lemma NotDueUntilFrequencyElapses(last: LastCheck, sites: seq<Site>, now: int, outcomes: seq<Outcome>, i: int, later: int)
    requires |outcomes| == |sites|
    requires DistinctIds(sites)
    requires 0 <= i < |sites| && Refreshes(last, sites[i], now, outcomes[i])
    ensures Due(Tick(last, sites, now, outcomes).last, sites[i], later) <==> later - now >= sites[i].frequency
  {
    TickMatchesSnapshot(last, sites, now, outcomes);
    assert sites[i].id in RefreshedIds(last, sites, now, outcomes);
  }

  /** A listed site that was not due, or whose check raised, keeps its entry, so a crashed site stays due. */
  lemma UnrefreshedEntryUnchanged(last: LastCheck, sites: seq<Site>, now: int, outcomes: seq<Outcome>, i: int)
    requires |outcomes| == |sites|
    requires DistinctIds(sites)
    requires 0 <= i < |sites| && !Refreshes(last, sites[i], now, outcomes[i])
    ensures SameEntry(last, Tick(last, sites, now, outcomes).last, sites[i].id)
    ensures Due(last, sites[i], now) ==> Due(Tick(last, sites, now, outcomes).last, sites[i], now)
  {
    TickMatchesSnapshot(last, sites, now, outcomes);
    var ids := RefreshedIds(last, sites, now, outcomes);
  }

  /**
   * Failure isolation: a site whose check raises leaves no trace on the
   * tick. The result is exactly that of the same tick with the site left
   * out, so every later site is processed as if nothing had happened.
   */
  lemma {:induction false} CrashLeavesNoTrace(last: LastCheck, sites: seq<Site>, now: int, outcomes: seq<Outcome>, i: int)
    requires |outcomes| == |sites|
    requires 0 <= i < |sites| && outcomes[i].Crash?
    ensures Tick(last, sites, now, outcomes) ==
      Tick(last, RemoveAt(sites, i), now, RemoveAt(outcomes, i))
    decreases i
  {
    RemoveAtHead(sites, i);
    RemoveAtHead(outcomes, i);
    if i > 0 {
      var last1 := AfterFirst(last, sites[0], now, outcomes[0]);
      CrashLeavesNoTrace(last1, sites[1..], now, outcomes[1..], i - 1);
      TickStep(last, sites, now, outcomes);
      TickStep(last, RemoveAt(sites, i), now, RemoveAt(outcomes, i));
    }
  }

  /** On a cold start every listed site is due, so every site whose check returns gets an entry. */
  lemma ColdStartChecksEverySite(sites: seq<Site>, now: int, outcomes: seq<Outcome>)
    requires |outcomes| == |sites|
    requires DistinctIds(sites)
    ensures forall i :: 0 <= i < |sites| && outcomes[i].Completed? ==>
      sites[i].id in Tick(map[], sites, now, outcomes).last
    ensures forall k :: k in Tick(map[], sites, now, outcomes).last ==>
      Tick(map[], sites, now, outcomes).last[k] == now
  {
    TickMatchesSnapshot(map[], sites, now, outcomes);
    forall i | 0 <= i < |sites| && outcomes[i].Completed?
      ensures sites[i].id in RefreshedIds(map[], sites, now, outcomes)
    {
    }
  }
}
