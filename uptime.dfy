/** The pure rules of the uptime monitor: how a probe is classified, how a
    service's status reacts to a check, which checks fall in a rollup window,
    the statistics of a window, the upsert of a metric row, and the
    wall-clock rule that decides which rollups run. */
module Uptime {
  import opened Entities

  const SecondsPerDay: int := 86400
  const MinutesPerDay: int := 1440

  // ---------------------------------------------------------------------
  // Probing one endpoint

  /** What the HTTP GET of a probe did: it answered with a status code after
      some milliseconds, or it raised (timeout, refused connection, ...). */
  datatype ProbeOutcome = Responded(statusCode: int, elapsedMs: nat) | Raised

  /** The pair (is up, response time) that a probe reports. */
  datatype Probe = Probe(up: bool, responseTime: Option<int>)

  /** A probe is up iff the endpoint answered with a code below 400; the
      response time is absent exactly when the probe raised. */
  function Classify(o: ProbeOutcome): (r: Probe)
    ensures r.up <==> o.Responded? && o.statusCode < 400
    ensures r.responseTime.None? <==> o.Raised?
    ensures o.Responded? ==> r.responseTime == Some(o.elapsedMs)
    ensures r.responseTime.None? ==> !r.up
  {
    match o
    case Responded(code, ms) => Probe(code < 400, Some(ms))
    case Raised => Probe(false, None)
  }

  // ---------------------------------------------------------------------
  // The automatic service status

  /** The incidents that list the service and are not resolved. */
  function ActiveIncidents(incidents: map<Id, Incident>, sid: Id): set<Id>
  {
    set i | i in incidents && sid in incidents[i].serviceIds && incidents[i].status != "resolved"
  }

  /** The status a service gets after a check: a down check turns
      "operational" into "partial_outage"; an up check turns any other status
      into "operational" unless an unresolved incident lists the service. */
  function NextStatus(status: string, up: bool, hasActiveIncident: bool): (r: string)
    ensures r == status || r == "operational" || r == "partial_outage"
    ensures !up && status == "operational" ==> r == "partial_outage"
    ensures !up && status != "operational" ==> r == status
    ensures up && !hasActiveIncident ==> r == "operational"
    ensures up && hasActiveIncident ==> r == status
  {
    if !up && status == "operational" then "partial_outage"
    else if up && status != "operational" && !hasActiveIncident then "operational"
    else status
  }

  /** The automatic status never leaves the five service statuses. */
  lemma NextStatusKeepsServiceStatuses(status: string, up: bool, hasActiveIncident: bool)
    requires status in ServiceStatuses
    ensures NextStatus(status, up, hasActiveIncident) in ServiceStatuses
  {
  }

  /** A second check with the same outcome changes nothing more. */
  lemma NextStatusIdempotent(status: string, up: bool, hasActiveIncident: bool)
    ensures NextStatus(NextStatus(status, up, hasActiveIncident), up, hasActiveIncident)
         == NextStatus(status, up, hasActiveIncident)
  {
  }

  // ---------------------------------------------------------------------
  // Rollup windows

  /** A check belongs to the window [start, end) of a service. */
  predicate InWindow(c: Check, sid: Id, start: int, end: int) {
    c.serviceId == sid && start <= c.timestamp < end
  }

  /** The checks of service `sid` with start <= timestamp < end, in table
      order. */
  function WindowChecks(cs: seq<Check>, sid: Id, start: int, end: int): seq<Check>
  {
    if cs == [] then []
    else (if InWindow(cs[0], sid, start, end) then [cs[0]] else []) + WindowChecks(cs[1..], sid, start, end)
  }

  /** The window holds exactly the table's checks of the service in the
      time range, and no more rows than the table. */
  lemma {:induction false} WindowChecksMembers(cs: seq<Check>, sid: Id, start: int, end: int)
    ensures |WindowChecks(cs, sid, start, end)| <= |cs|
    ensures forall c :: c in WindowChecks(cs, sid, start, end) <==> c in cs && InWindow(c, sid, start, end)
  {
    if cs != [] {
      WindowChecksMembers(cs[1..], sid, start, end);
      assert forall c :: c in cs <==> c == cs[0] || c in cs[1..];
    }
  }

  /** The window keeps each matching row as many times as the table holds
      it, and no other row. */
  lemma {:induction false} WindowChecksMultiset(cs: seq<Check>, sid: Id, start: int, end: int)
    ensures forall c :: multiset(WindowChecks(cs, sid, start, end))[c] == if InWindow(c, sid, start, end) then multiset(cs)[c] else 0
  {
    if cs != [] {
      WindowChecksMultiset(cs[1..], sid, start, end);
      assert cs == [cs[0]] + cs[1..];
    }
  }

  /** The window of a table split in two is the window of the first part
      followed by the window of the second: with WindowChecksSingle, the
      query keeps table order. */
  lemma {:induction false} WindowChecksAppend(a: seq<Check>, b: seq<Check>, sid: Id, start: int, end: int)
    ensures WindowChecks(a + b, sid, start, end) == WindowChecks(a, sid, start, end) + WindowChecks(b, sid, start, end)
  {
    if a == [] {
      assert a + b == b;
    } else {
      var head := if InWindow(a[0], sid, start, end) then [a[0]] else [];
      assert (a + b)[0] == a[0];
      assert (a + b)[1..] == a[1..] + b;
      WindowChecksAppend(a[1..], b, sid, start, end);
      assert WindowChecks(a + b, sid, start, end) == head + WindowChecks(a[1..] + b, sid, start, end);
      assert WindowChecks(a, sid, start, end) == head + WindowChecks(a[1..], sid, start, end);
    }
  }

  /** A single row is kept exactly when it matches. */
  lemma WindowChecksSingle(c: Check, sid: Id, start: int, end: int)
    ensures WindowChecks([c], sid, start, end) == if InWindow(c, sid, start, end) then [c] else []
  {
  }

  /** A window inside another never holds more checks. */
  lemma {:induction false} WindowMonotone(cs: seq<Check>, sid: Id, start: int, end: int, start': int, end': int)
    requires start' <= start && end <= end'
    ensures |WindowChecks(cs, sid, start, end)| <= |WindowChecks(cs, sid, start', end')|
  {
    if cs != [] {
      WindowMonotone(cs[1..], sid, start, end, start', end');
    }
  }

  /** Checks recorded later, at or after the window's end, leave it as it was. */
  lemma {:induction false} WindowIgnoresLaterChecks(cs: seq<Check>, later: seq<Check>, sid: Id, start: int, end: int)
    requires forall c :: c in later ==> c.timestamp >= end
    ensures WindowChecks(cs + later, sid, start, end) == WindowChecks(cs, sid, start, end)
  {
    if cs == [] {
      assert cs + later == later;
      WindowEmpty(later, sid, start, end);
    } else {
      assert (cs + later)[1..] == cs[1..] + later;
      WindowIgnoresLaterChecks(cs[1..], later, sid, start, end);
    }
  }

  lemma WindowEmpty(cs: seq<Check>, sid: Id, start: int, end: int)
    requires forall c :: c in cs ==> !InWindow(c, sid, start, end)
    ensures WindowChecks(cs, sid, start, end) == []
  {
    if cs != [] {
      WindowEmpty(cs[1..], sid, start, end);
    }
  }

  /** Midnight of the day `now` falls in. */
  function Midnight(now: int): (r: int)
    ensures r <= now < r + SecondsPerDay
    ensures r % SecondsPerDay == 0
  {
    now - now % SecondsPerDay
  }

  // ---------------------------------------------------------------------
  // Statistics of a window
  //
  // The functions below carry no postconditions of their own: their
  // properties are lemmas, so that the rollup structure can be reasoned
  // about without the arithmetic of every row.

  /** The number of up checks. */
  function UpCount(cs: seq<Check>): (r: nat)
    ensures r <= |cs|
  {
    if cs == [] then 0 else (if cs[0].up then 1 else 0) + UpCount(cs[1..])
  }

  /** All checks are up, or none is, exactly when the count says so. */
  lemma {:induction false} UpCountSpec(cs: seq<Check>)
    ensures UpCount(cs) == |cs| <==> forall c :: c in cs ==> c.up
    ensures UpCount(cs) == 0 <==> forall c :: c in cs ==> !c.up
  {
    if cs != [] {
      UpCountSpec(cs[1..]);
      assert forall c :: c in cs <==> c == cs[0] || c in cs[1..];
    }
  }

  /** The response times that are present, in order. */
  function ResponseTimes(cs: seq<Check>): seq<int>
  {
    if cs == [] then []
    else (match cs[0].responseTime case Some(t) => [t] case None => []) + ResponseTimes(cs[1..])
  }

  /** There are no response times exactly when no check has one. */
  lemma {:induction false} ResponseTimesSpec(cs: seq<Check>)
    ensures |ResponseTimes(cs)| <= |cs|
    ensures ResponseTimes(cs) == [] <==> forall c :: c in cs ==> c.responseTime.None?
  {
    if cs != [] {
      ResponseTimesSpec(cs[1..]);
      assert forall c :: c in cs <==> c == cs[0] || c in cs[1..];
    }
  }

  function Sum(xs: seq<int>): int {
    if xs == [] then 0 else xs[0] + Sum(xs[1..])
  }

  /** The uptime percentage, exactly: 100 * up / total. */
  function UptimePercentage(up: nat, total: nat): real
    requires 0 < total && up <= total
  {
    (up as real / total as real) * 100.0
  }

  /** A percentage, 100 exactly when every check is up and 0 exactly when
      none is. */
  lemma UptimePercentageSpec(up: nat, total: nat)
    requires 0 < total && up <= total
    ensures 0.0 <= UptimePercentage(up, total) <= 100.0
    ensures UptimePercentage(up, total) == 100.0 <==> up == total
    ensures UptimePercentage(up, total) == 0.0 <==> up == 0
  {
    var t, u := total as real, up as real;
    var q := u / t;
    assert q * t == u;
    RealScale(q, t);
  }

  lemma RealScale(q: real, t: real)
    requires 0.0 < t
    ensures q < 0.0 ==> q * t < 0.0
    ensures q > 0.0 ==> q * t > 0.0
    ensures q < 1.0 ==> q * t < t
    ensures q > 1.0 ==> q * t > t
  {
  }

  /** The floored mean of the present response times. */
  function AverageResponseTime(cs: seq<Check>): Option<int>
  {
    var ts := ResponseTimes(cs);
    if ts == [] then None else Some(Sum(ts) / |ts|)
  }

  /** Absent exactly when no check has a response time; otherwise the
      largest integer not above the mean. */
  lemma AverageResponseTimeSpec(cs: seq<Check>)
    ensures AverageResponseTime(cs).None? <==> forall c :: c in cs ==> c.responseTime.None?
    ensures AverageResponseTime(cs).Some? ==>
      var ts := ResponseTimes(cs);
      var q := AverageResponseTime(cs).value;
      |ts| > 0 && q * |ts| <= Sum(ts) < (q + 1) * |ts|
  {
    ResponseTimesSpec(cs);
    var ts := ResponseTimes(cs);
    if ts != [] {
      FloorDivision(Sum(ts), |ts|);
    }
  }

  lemma FloorDivision(a: int, b: int)
    requires b > 0
    ensures (a / b) * b <= a < (a / b + 1) * b
  {
  }

  /** Minutes of downtime: each of the `total` checks stands for an equal
      share of the `days`-day window, and the down checks' shares are summed
      and truncated. */
  function Downtime(total: nat, up: nat, days: nat): int
    requires 0 < total && up <= total
  {
    ((total - up) * (days * MinutesPerDay)) / total
  }

  /** Between none and the whole window; the floor of the down share; none
      when every check is up, the whole window when none is. */
  lemma DowntimeSpec(total: nat, up: nat, days: nat)
    requires 0 < total && up <= total
    ensures var r := Downtime(total, up, days);
      0 <= r <= days * MinutesPerDay &&
      r * total <= (total - up) * (days * MinutesPerDay) < (r + 1) * total
    ensures up == total ==> Downtime(total, up, days) == 0
    ensures up == 0 ==> Downtime(total, up, days) == days * MinutesPerDay
  {
    var w := days * MinutesPerDay;
    FloorDivision((total - up) * w, total);
    DowntimeBounds(total, up, w);
  }

  lemma DowntimeBounds(total: nat, up: nat, w: nat)
    requires 0 < total && up <= total
    ensures 0 <= ((total - up) * w) / total <= w
    ensures up == 0 ==> ((total - up) * w) / total == w
  {
    var a := (total - up) * w;
    MulMonotone(0, total - up, w);
    DivNonNegative(a, total);
    MulMonotone(total - up, total, w);
    DivAtMost(a, total, w);
    if up == 0 {
      assert a == w * total;
      MulDiv(w, total);
    }
  }

  lemma MulMonotone(x: int, y: int, k: int)
    requires x <= y && 0 <= k
    ensures x * k <= y * k
  {
  }

  lemma DivNonNegative(a: int, b: int)
    requires 0 <= a && 0 < b
    ensures 0 <= a / b
  {
    FloorDivision(a, b);
    if a / b < 0 {
      MulMonotone(a / b + 1, 0, b);
      assert false;
    }
  }

  lemma DivAtMost(a: int, b: int, w: int)
    requires 0 < b && a <= w * b
    ensures a / b <= w
  {
    var q := a / b;
    FloorDivision(a, b);
    if q > w {
      MulMonotone(w + 1, q, b);
      assert false;
    }
  }

  lemma MulDiv(w: int, b: int)
    requires 0 < b
    ensures (w * b) / b == w
  {
    var q := (w * b) / b;
    FloorDivision(w * b, b);
    DivAtMost(w * b, b, w);
    if q < w {
      MulMonotone(q + 1, w, b);
      assert false;
    }
  }

  /** The metric row computed from the (non-empty) checks of one window. */
  function ComputeMetric(cs: seq<Check>, sid: Id, period: Period, start: int, end: int, days: nat): (r: Metric)
    requires |cs| > 0
    ensures r.serviceId == sid && r.period == period && r.startDate == start && r.endDate == end
    ensures r.checksCount == |cs|
  {
    var up := UpCount(cs);
    Metric(sid, period, start, end, UptimePercentage(up, |cs|), AverageResponseTime(cs), |cs|,
           Downtime(|cs|, up, days))
  }

  /** The statistics of a row: a percentage that is 100 exactly when every
      check of the window is up and 0 exactly when none is; an average that
      is absent exactly when no check has a response time; downtime between
      none and the whole window, none exactly when every check is up. */
  lemma ComputeMetricSpec(cs: seq<Check>, sid: Id, period: Period, start: int, end: int, days: nat)
    requires |cs| > 0
    ensures var r := ComputeMetric(cs, sid, period, start, end, days);
      0.0 <= r.uptime <= 100.0 &&
      (r.uptime == 100.0 <==> forall c :: c in cs ==> c.up) &&
      (r.uptime == 0.0 <==> forall c :: c in cs ==> !c.up) &&
      (r.avgResponseTime.None? <==> forall c :: c in cs ==> c.responseTime.None?) &&
      0 <= r.downtimeMinutes <= days * MinutesPerDay &&
      ((forall c :: c in cs ==> c.up) ==> r.downtimeMinutes == 0) &&
      ((forall c :: c in cs ==> !c.up) ==> r.downtimeMinutes == days * MinutesPerDay)
  {
    UpCountSpec(cs);
    var up := UpCount(cs);
    UptimePercentageSpec(up, |cs|);
    AverageResponseTimeSpec(cs);
    DowntimeSpec(|cs|, up, days);
  }

  // ---------------------------------------------------------------------
  // The metric table and its upsert

  type MetricKey = (Id, Period, int, int)

  /** A metric row is identified by (service, period, startDate, endDate). */
  function Key(m: Metric): MetricKey {
    (m.serviceId, m.period, m.startDate, m.endDate)
  }

  predicate UniqueKeys(ms: seq<Metric>) {
    forall i, j :: 0 <= i < j < |ms| ==> Key(ms[i]) != Key(ms[j])
  }

  /** `find_first` on the key: the index of the first row with key `k`. */
  function FindMetric(ms: seq<Metric>, k: MetricKey): (r: Option<nat>)
    ensures r.Some? ==> (r.value < |ms| && Key(ms[r.value]) == k &&
      forall j :: 0 <= j < r.value ==> Key(ms[j]) != k)
    ensures r.None? <==> forall j :: 0 <= j < |ms| ==> Key(ms[j]) != k
  {
    if ms == [] then None
    else if Key(ms[0]) == k then Some(0)
    else match FindMetric(ms[1..], k)
      case None => None
      case Some(j) => Some(j + 1)
  }

  /** FindMetric is determined by the first matching index. */
  lemma FindFirst(ms: seq<Metric>, k: MetricKey, i: nat)
    requires i < |ms| && Key(ms[i]) == k
    requires forall j :: 0 <= j < i ==> Key(ms[j]) != k
    ensures FindMetric(ms, k) == Some(i)
  {
  }

  /** Create or update: the first row with the same key is overwritten,
      otherwise the row is appended. */
  function Upsert(ms: seq<Metric>, m: Metric): seq<Metric>
  {
    match FindMetric(ms, Key(m))
    case Some(i) => ms[i := m]
    case None => ms + [m]
  }

  /** The row `m` is the one the table answers for its key. */
  predicate Holds(ms: seq<Metric>, m: Metric) {
    FindMetric(ms, Key(m)).Some? && ms[FindMetric(ms, Key(m)).value] == m
  }

  /** After the upsert the table answers `m` for its key; the table grows by
      one row exactly when the key was new; every row with another key stays
      where it was; keys stay unique. */
  lemma UpsertSpec(ms: seq<Metric>, m: Metric)
    ensures Holds(Upsert(ms, m), m)
    ensures FindMetric(ms, Key(m)).Some? ==> |Upsert(ms, m)| == |ms|
    ensures FindMetric(ms, Key(m)).None? ==> Upsert(ms, m) == ms + [m]
    ensures forall j :: 0 <= j < |ms| && Key(ms[j]) != Key(m) ==> Upsert(ms, m)[j] == ms[j]
    ensures UniqueKeys(ms) ==> UniqueKeys(Upsert(ms, m))
  {
    var r := Upsert(ms, m);
    match FindMetric(ms, Key(m))
    case Some(i) =>
      FindFirst(r, Key(m), i);
    case None =>
      FindFirst(r, Key(m), |ms|);
  }

  /** Upserting a whole list of rows, in order. */
  function UpsertAll(ms: seq<Metric>, rs: seq<Metric>): seq<Metric>
  {
    if rs == [] then ms else Upsert(UpsertAll(ms, rs[..|rs| - 1]), rs[|rs| - 1])
  }

  /** Proof step for the rollup loop: upserting a list that ends in zero
      or one more row. */
  lemma UpsertAllSnoc(ms: seq<Metric>, rs: seq<Metric>, tail: seq<Metric>)
    requires |tail| <= 1
    ensures UpsertAll(ms, rs + tail) == if tail == [] then UpsertAll(ms, rs) else Upsert(UpsertAll(ms, rs), tail[0])
  {
    if tail == [] {
      assert rs + tail == rs;
    } else {
      assert (rs + tail)[..|rs + tail| - 1] == rs;
    }
  }

  lemma UpsertOfHeldRow(ms: seq<Metric>, m: Metric)
    requires Holds(ms, m)
    ensures Upsert(ms, m) == ms
  {
  }

  /** Upserting a row with another key does not disturb a held row. */
  lemma HoldsAcrossUpsert(ms: seq<Metric>, m: Metric, m': Metric)
    requires Holds(ms, m) && Key(m') != Key(m)
    ensures Holds(Upsert(ms, m'), m)
  {
    var i := FindMetric(ms, Key(m)).value;
    var r := Upsert(ms, m');
    UpsertSpec(ms, m');
    assert r[i] == m;
    forall j | 0 <= j < i ensures Key(r[j]) != Key(m) {
      if j < |ms| && Key(ms[j]) != Key(m') {
        assert r[j] == ms[j];
      }
    }
    FindFirst(r, Key(m), i);
  }

  lemma {:induction false} UpsertAllHolds(ms: seq<Metric>, rs: seq<Metric>)
    requires UniqueKeys(rs)
    ensures forall m :: m in rs ==> Holds(UpsertAll(ms, rs), m)
  {
    if rs != [] {
      var init, last := rs[..|rs| - 1], rs[|rs| - 1];
      assert UniqueKeys(init);
      UpsertAllHolds(ms, init);
      UpsertSpec(UpsertAll(ms, init), last);
      forall m | m in rs ensures Holds(UpsertAll(ms, rs), m) {
        if m != last {
          var k :| 0 <= k < |rs| && rs[k] == m;
          assert k < |rs| - 1;
          assert m in init;
          HoldsAcrossUpsert(UpsertAll(ms, init), m, last);
        }
      }
    }
  }

  lemma {:induction false} UpsertAllOfHeldRows(ms: seq<Metric>, rs: seq<Metric>)
    requires forall m :: m in rs ==> Holds(ms, m)
    ensures UpsertAll(ms, rs) == ms
  {
    if rs != [] {
      var init, last := rs[..|rs| - 1], rs[|rs| - 1];
      assert forall m :: m in init ==> m in rs;
      UpsertAllOfHeldRows(ms, init);
      UpsertOfHeldRow(ms, last);
    }
  }

  /** Recomputing the same rollups over the same table changes nothing. */
  lemma UpsertAllIdempotent(ms: seq<Metric>, rs: seq<Metric>)
    requires UniqueKeys(rs)
    ensures UpsertAll(UpsertAll(ms, rs), rs) == UpsertAll(ms, rs)
  {
    UpsertAllHolds(ms, rs);
    UpsertAllOfHeldRows(UpsertAll(ms, rs), rs);
  }

  /** A table without duplicate keys keeps that shape under the upserts. */
  lemma {:induction false} UpsertAllKeepsUniqueKeys(ms: seq<Metric>, rs: seq<Metric>)
    requires UniqueKeys(ms)
    ensures UniqueKeys(UpsertAll(ms, rs))
  {
    if rs != [] {
      UpsertAllKeepsUniqueKeys(ms, rs[..|rs| - 1]);
      UpsertSpec(UpsertAll(ms, rs[..|rs| - 1]), rs[|rs| - 1]);
    }
  }

  // ---------------------------------------------------------------------
  // The rollup of one period

  /** The rollup of one service over [start, end): none when the window
      holds no check. */
  function Rollup(checks: seq<Check>, sid: Id, period: Period, days: nat, start: int, end: int): Option<Metric>
  {
    var cs := WindowChecks(checks, sid, start, end);
    if cs == [] then None
    else Some(ComputeMetric(cs, sid, period, start, end, days))
  }

  /** A service gets a row exactly when one of its checks lies in the
      window; the row is keyed by the service and the window and counts the
      window's checks. */
  lemma RollupSpec(checks: seq<Check>, sid: Id, period: Period, days: nat, start: int, end: int)
    ensures Rollup(checks, sid, period, days, start, end).None? <==>
      forall c :: c in checks ==> !InWindow(c, sid, start, end)
    ensures Rollup(checks, sid, period, days, start, end).Some? ==>
      var m := Rollup(checks, sid, period, days, start, end).value;
      m.serviceId == sid && m.period == period && m.startDate == start && m.endDate == end &&
      m.checksCount == |WindowChecks(checks, sid, start, end)| > 0
  {
    var cs := WindowChecks(checks, sid, start, end);
    WindowChecksMembers(checks, sid, start, end);
    if cs != [] {
      assert cs[0] in cs;
    }
  }

  /** The rollup of every listed service, in the order of the list. */
  function RollupList(checks: seq<Check>, ids: seq<Id>, period: Period, days: nat, start: int, end: int): (r: seq<Option<Metric>>)
    ensures |r| == |ids|
    ensures forall k {:trigger r[k]} :: 0 <= k < |ids| ==> r[k] == Rollup(checks, ids[k], period, days, start, end)
  {
    seq(|ids|, k requires 0 <= k < |ids| => Rollup(checks, ids[k], period, days, start, end))
  }

  /** Proof step for the rollup loop: one more service, one more entry. */
  lemma RollupListStep(checks: seq<Check>, ids: seq<Id>, i: nat, period: Period, days: nat, start: int, end: int)
    requires i < |ids|
    ensures RollupList(checks, ids[..i + 1], period, days, start, end) ==
      RollupList(checks, ids[..i], period, days, start, end) + [Rollup(checks, ids[i], period, days, start, end)]
  {
    var a := RollupList(checks, ids[..i + 1], period, days, start, end);
    var b := RollupList(checks, ids[..i], period, days, start, end) + [Rollup(checks, ids[i], period, days, start, end)];
    forall k | 0 <= k < i + 1 ensures a[k] == b[k] {
      if k < i {
        assert ids[..i + 1][k] == ids[..i][k];
      }
    }
  }

  /** The rows that are present, in order. */
  function Present(os: seq<Option<Metric>>): seq<Metric>
  {
    if os == [] then []
    else
      var n := |os| - 1;
      Present(os[..n]) + match os[n] case None => [] case Some(m) => [m]
  }

  /** Every present row comes from an entry of the list. */
  lemma {:induction false} PresentSound(os: seq<Option<Metric>>)
    ensures forall m :: m in Present(os) ==> exists k :: 0 <= k < |os| && os[k] == Some(m)
  {
    if os != [] {
      var n := |os| - 1;
      PresentSound(os[..n]);
      forall m | m in Present(os) ensures exists k :: 0 <= k < |os| && os[k] == Some(m) {
        if m in Present(os[..n]) {
          var k :| 0 <= k < n && os[..n][k] == Some(m);
          assert os[k] == Some(m);
        } else {
          assert os[n] == Some(m);
        }
      }
    }
  }

  /** Every entry that holds a row gives a present row. */
  lemma {:induction false} PresentComplete(os: seq<Option<Metric>>, k: nat)
    requires k < |os| && os[k].Some?
    ensures os[k].value in Present(os)
  {
    var n := |os| - 1;
    if k < n {
      PresentComplete(os[..n], k);
    }
  }

  /** Rows of distinct services have distinct keys. */
  lemma {:induction false} PresentUniqueKeys(os: seq<Option<Metric>>, ids: seq<Id>)
    requires |os| == |ids|
    requires forall i, j :: 0 <= i < j < |ids| ==> ids[i] != ids[j]
    requires forall k :: 0 <= k < |os| && os[k].Some? ==> os[k].value.serviceId == ids[k]
    ensures UniqueKeys(Present(os))
  {
    if os != [] {
      var n := |os| - 1;
      var init := os[..n];
      PresentUniqueKeys(init, ids[..n]);
      PresentSound(init);
      forall m | m in Present(init) ensures m.serviceId != ids[n] {
        var k :| 0 <= k < n && init[k] == Some(m);
        assert os[k] == Some(m);
      }
    }
  }

  /** The rollups of the listed services, in their order, skipping the
      services whose window is empty. */
  function Rollups(checks: seq<Check>, ids: seq<Id>, period: Period, days: nat, start: int, end: int): seq<Metric>
  {
    Present(RollupList(checks, ids, period, days, start, end))
  }

  /** Every rollup row is the rollup of a listed service. */
  lemma RollupsSound(checks: seq<Check>, ids: seq<Id>, period: Period, days: nat, start: int, end: int)
    ensures forall m :: m in Rollups(checks, ids, period, days, start, end) ==>
      m.serviceId in ids && Rollup(checks, m.serviceId, period, days, start, end) == Some(m)
  {
    var os := RollupList(checks, ids, period, days, start, end);
    PresentSound(os);
    forall m | m in Rollups(checks, ids, period, days, start, end)
      ensures m.serviceId in ids && Rollup(checks, m.serviceId, period, days, start, end) == Some(m)
    {
      var k :| 0 <= k < |os| && os[k] == Some(m);
      RollupSpec(checks, ids[k], period, days, start, end);
    }
  }

  /** Every listed service whose window holds a check has its row. */
  lemma RollupsComplete(checks: seq<Check>, ids: seq<Id>, period: Period, days: nat, start: int, end: int, k: nat)
    requires k < |ids| && Rollup(checks, ids[k], period, days, start, end).Some?
    ensures Rollup(checks, ids[k], period, days, start, end).value in Rollups(checks, ids, period, days, start, end)
  {
    var os := RollupList(checks, ids, period, days, start, end);
    assert os[k] == Rollup(checks, ids[k], period, days, start, end);
    PresentComplete(os, k);
  }

  /** The rollups of distinct services have distinct keys. */
  lemma RollupsUniqueKeys(checks: seq<Check>, ids: seq<Id>, period: Period, days: nat, start: int, end: int)
    requires forall i, j :: 0 <= i < j < |ids| ==> ids[i] != ids[j]
    ensures UniqueKeys(Rollups(checks, ids, period, days, start, end))
  {
    var os := RollupList(checks, ids, period, days, start, end);
    forall k | 0 <= k < |os| && os[k].Some? ensures os[k].value.serviceId == ids[k] {
      RollupSpec(checks, ids[k], period, days, start, end);
    }
    PresentUniqueKeys(os, ids);
  }

  /** The rows of one period's rollup run at `now`: the window is the
      `days` days before the midnight that starts the day of `now`. */
  function PeriodRollups(checks: seq<Check>, ids: seq<Id>, period: Period, days: nat, now: int): seq<Metric>
  {
    var end := Midnight(now);
    Rollups(checks, ids, period, days, end - days * SecondsPerDay, end)
  }

  lemma PeriodRollupsWindow(checks: seq<Check>, ids: seq<Id>, period: Period, days: nat, now: int, start: int, end: int)
    requires end == Midnight(now) && start == end - days * SecondsPerDay
    ensures PeriodRollups(checks, ids, period, days, now) == Rollups(checks, ids, period, days, start, end)
  {
  }

  /** The table after upserting the rollup of one service, if there is one. */
  function Stash(ms: seq<Metric>, o: Option<Metric>): seq<Metric> {
    match o
    case None => ms
    case Some(m) => Upsert(ms, m)
  }

  /** The rollup loop as it runs: the entries are upserted one by one. */
  function StashAll(ms: seq<Metric>, os: seq<Option<Metric>>): seq<Metric>
  {
    if os == [] then ms else Stash(StashAll(ms, os[..|os| - 1]), os[|os| - 1])
  }

  /** Proof step for the rollup loop: one more entry, one more stash. */
  lemma StashAllSnoc(ms: seq<Metric>, os: seq<Option<Metric>>, o: Option<Metric>)
    ensures StashAll(ms, os + [o]) == Stash(StashAll(ms, os), o)
  {
  }

  /** Upserting entry by entry is upserting the list of the present rows. */
  lemma {:induction false} StashAllIsUpsertAll(ms: seq<Metric>, os: seq<Option<Metric>>)
    ensures StashAll(ms, os) == UpsertAll(ms, Present(os))
  {
    if os != [] {
      var n := |os| - 1;
      StashAllIsUpsertAll(ms, os[..n]);
      UpsertAllSnoc(ms, Present(os[..n]), match os[n] case None => [] case Some(m) => [m]);
    }
  }

  // ---------------------------------------------------------------------
  // When the rollups run

  /** The local wall clock; weekday 0 is Monday and 6 is Sunday. */
  datatype WallClock = WallClock(year: int, month: int, day: int, hour: int, minute: int, weekday: int)

  predicate IsLeapYear(y: int) {
    y % 4 == 0 && (y % 100 != 0 || y % 400 == 0)
  }

  function DaysInMonth(year: int, month: int): (r: int)
    requires 1 <= month <= 12
    ensures 28 <= r <= 31
    ensures month == 2 ==> (r == 29 <==> IsLeapYear(year))
  {
    if month == 2 then (if IsLeapYear(year) then 29 else 28)
    else if month == 4 || month == 6 || month == 9 || month == 11 then 30
    else 31
  }

  /** The day number of the day before the first of the month, that is the
      length of the previous month. */
  function PreviousMonthLength(year: int, month: int): (r: int)
    requires 1 <= month <= 12
    ensures 28 <= r <= 31
    ensures month == 1 ==> r == 31
    ensures month > 1 ==> r == DaysInMonth(year, month - 1)
  {
    if month == 1 then DaysInMonth(year - 1, 12) else DaysInMonth(year, month - 1)
  }

  predicate ValidClock(t: WallClock) {
    1 <= t.month <= 12 && 1 <= t.day <= DaysInMonth(t.year, t.month) &&
    0 <= t.hour < 24 && 0 <= t.minute < 60 && 0 <= t.weekday < 7
  }

  /** The first `interval / 60` minutes after midnight. */
  predicate AtMidnight(t: WallClock, interval: nat) {
    t.hour == 0 && t.minute < interval / 60
  }

  /** The rollups one monitoring round starts, as (period, days), in order. */
  function ScheduledRollups(t: WallClock, interval: nat): (r: seq<(Period, nat)>)
    requires 1 <= t.month <= 12
    ensures (Daily, 1) in r <==> AtMidnight(t, interval)
    ensures (Weekly, 7) in r <==> AtMidnight(t, interval) && t.weekday == 6
    ensures (Monthly, PreviousMonthLength(t.year, t.month) as nat) in r <==> AtMidnight(t, interval) && t.day == 1
    ensures forall p :: p in r ==> (p == (Daily, 1) || p == (Weekly, 7) ||
      p == (Monthly, PreviousMonthLength(t.year, t.month) as nat))
  {
    (if AtMidnight(t, interval) then [(Daily, 1)] else []) +
    (if t.weekday == 6 && AtMidnight(t, interval) then [(Weekly, 7)] else []) +
    (if t.day == 1 && AtMidnight(t, interval) then [(Monthly, PreviousMonthLength(t.year, t.month) as nat)] else [])
  }

  /** With the 60-second interval of the monitor, "midnight" is the minute
      00:00. */
  lemma ScheduleAtSixtySeconds(t: WallClock)
    requires ValidClock(t)
    ensures AtMidnight(t, 60) <==> t.hour == 0 && t.minute == 0
  {
  }

  lemma PreviousMonthLengthExamples()
    ensures PreviousMonthLength(2024, 3) == 29
    ensures PreviousMonthLength(2023, 3) == 28
    ensures PreviousMonthLength(1900, 3) == 28
    ensures PreviousMonthLength(2000, 3) == 29
    ensures PreviousMonthLength(2024, 1) == 31
    ensures PreviousMonthLength(2024, 5) == 30
  {
  }
}
