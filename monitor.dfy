/** The uptime monitor service: one round probes every service that has an
    endpoint, records a check and adjusts the service's status; the rollup
    computes per-window metrics and upserts them into the metric table. */
module Monitor {
  import opened Entities
  import opened Uptime
  import opened Store

  /** The exception, if any, that interrupts one service's iteration of the
      probing round (the loop catches it and goes on with the next service):
      writing the check row fails, or counting incidents / writing the new
      status fails after the check row was written. */
  datatype Fault = NoFault | RecordFails | StatusUpdateFails

  /** What happens to one service during a round: the probe's outcome, the
      fault if any, and the clock reading stored in the check row. */
  datatype Attempt = Attempt(outcome: ProbeOutcome, fault: Fault, at: int)

  /** The status the probing round writes for a service, if it writes one:
      nothing without an endpoint or after a fault; otherwise
      "partial_outage" for a down check of an operational service, and
      "operational" for an up check of any other service that no unresolved
      incident lists. */
  function StatusWrite(s: Service, a: Attempt, hasActiveIncident: bool): Option<string>
  {
    if !Truthy(s.endpoint) || a.fault != NoFault then None
    else
      var up := Classify(a.outcome).up;
      if !up && s.status == "operational" then Some("partial_outage")
      else if up && s.status != "operational" && !hasActiveIncident then Some("operational")
      else None
  }

  /** A status is written exactly when the automatic status differs from the
      stored one, and what is written is the automatic status. */
  lemma StatusWriteIsNextStatus(s: Service, a: Attempt, hasActiveIncident: bool)
    ensures StatusWrite(s, a, hasActiveIncident) ==
      var next := NextStatus(s.status, Classify(a.outcome).up, hasActiveIncident);
      if Truthy(s.endpoint) && a.fault == NoFault && next != s.status then Some(next) else None
  {
  }

  /** A service row after its iteration of the probing round: only the status
      may change, and only when the service has an endpoint and nothing
      failed; then it is the automatic status. */
  function CheckedService(s: Service, a: Attempt, hasActiveIncident: bool): (r: Service)
    ensures r.(status := s.status) == s
    ensures !Truthy(s.endpoint) || a.fault != NoFault ==> r == s
    ensures Truthy(s.endpoint) && a.fault == NoFault ==>
      r.status == NextStatus(s.status, Classify(a.outcome).up, hasActiveIncident)
  {
    match StatusWrite(s, a, hasActiveIncident)
    case None => s
    case Some(st) => s.(status := st)
  }

  /** The service table after a round over the fetched rows `svcs`: each
      write sets the status of the fetched row. */
  function CheckedServices(svcs: map<Id, Service>, incidents: map<Id, Incident>, ids: seq<Id>, attempts: seq<Attempt>): map<Id, Service>
    requires |attempts| == |ids|
    requires forall k :: 0 <= k < |ids| ==> ids[k] in svcs
  {
    if ids == [] then svcs
    else
      var n := |ids| - 1;
      assert forall k :: 0 <= k < n ==> ids[..n][k] == ids[k];
      var prev := CheckedServices(svcs, incidents, ids[..n], attempts[..n]);
      var s := svcs[ids[n]];
      match StatusWrite(s, attempts[n], ActiveIncidents(incidents, ids[n]) != {})
      case None => prev
      case Some(st) => prev[ids[n] := s.(status := st)]
  }

  /** Proof step for the check loop: one more service, one more status
      write. */
  lemma CheckedServicesStep(svcs: map<Id, Service>, incidents: map<Id, Incident>, ids: seq<Id>, attempts: seq<Attempt>, i: nat)
    requires |attempts| == |ids| && i < |ids|
    requires forall k :: 0 <= k < |ids| ==> ids[k] in svcs
    ensures CheckedServices(svcs, incidents, ids[..i + 1], attempts[..i + 1]) ==
      match StatusWrite(svcs[ids[i]], attempts[i], ActiveIncidents(incidents, ids[i]) != {})
      case None => CheckedServices(svcs, incidents, ids[..i], attempts[..i])
      case Some(st) => CheckedServices(svcs, incidents, ids[..i], attempts[..i])[ids[i] := svcs[ids[i]].(status := st)]
  {
    assert ids[..i + 1][..i] == ids[..i];
    assert attempts[..i + 1][..i] == attempts[..i];
  }

  /** A round adds no service and removes none. */
  lemma {:induction false} CheckedServicesKeys(svcs: map<Id, Service>, incidents: map<Id, Incident>, ids: seq<Id>, attempts: seq<Attempt>)
    requires |attempts| == |ids|
    requires forall k :: 0 <= k < |ids| ==> ids[k] in svcs
    ensures CheckedServices(svcs, incidents, ids, attempts).Keys == svcs.Keys
  {
    if ids != [] {
      var n := |ids| - 1;
      assert forall k :: 0 <= k < n ==> ids[..n][k] == ids[k];
      CheckedServicesKeys(svcs, incidents, ids[..n], attempts[..n]);
    }
  }

  /** A service the round does not list keeps its row. */
  lemma {:induction false} CheckedServicesOthers(svcs: map<Id, Service>, incidents: map<Id, Incident>, ids: seq<Id>, attempts: seq<Attempt>, id: Id)
    requires |attempts| == |ids|
    requires forall k :: 0 <= k < |ids| ==> ids[k] in svcs
    requires id in svcs && id !in ids
    ensures id in CheckedServices(svcs, incidents, ids, attempts)
    ensures CheckedServices(svcs, incidents, ids, attempts)[id] == svcs[id]
  {
    if ids != [] {
      var n := |ids| - 1;
      assert forall k :: 0 <= k < n ==> ids[..n][k] == ids[k];
      CheckedServicesOthers(svcs, incidents, ids[..n], attempts[..n], id);
    }
  }

  /** When the listed services are distinct, each one ends the round as its
      own iteration left it. */
  lemma {:induction false} CheckedServicesAt(svcs: map<Id, Service>, incidents: map<Id, Incident>, ids: seq<Id>, attempts: seq<Attempt>, k: nat)
    requires |attempts| == |ids| && k < |ids|
    requires forall k :: 0 <= k < |ids| ==> ids[k] in svcs
    requires forall i, j :: 0 <= i < j < |ids| ==> ids[i] != ids[j]
    ensures ids[k] in CheckedServices(svcs, incidents, ids, attempts)
    ensures CheckedServices(svcs, incidents, ids, attempts)[ids[k]] ==
      CheckedService(svcs[ids[k]], attempts[k], ActiveIncidents(incidents, ids[k]) != {})
  {
    var n := |ids| - 1;
    var init, ainit := ids[..n], attempts[..n];
    assert forall j :: 0 <= j < n ==> init[j] == ids[j];
    if k < n {
      CheckedServicesAt(svcs, incidents, init, ainit, k);
      assert ids[n] != ids[k];
    } else {
      assert ids[k] !in init;
      CheckedServicesOthers(svcs, incidents, init, ainit, ids[k]);
    }
  }

  /** The check row one iteration writes, if any. */
  function RecordedCheck(sid: Id, s: Service, a: Attempt): (r: seq<Check>)
    ensures |r| == (if Truthy(s.endpoint) && a.fault != RecordFails then 1 else 0)
    ensures |r| == 1 ==> r[0] == Check(sid, Classify(a.outcome).up, Classify(a.outcome).responseTime, a.at)
  {
    if Truthy(s.endpoint) && a.fault != RecordFails
    then [Check(sid, Classify(a.outcome).up, Classify(a.outcome).responseTime, a.at)]
    else []
  }

  /** The check rows a round appends, in service order. */
  function RecordedChecks(svcs: map<Id, Service>, ids: seq<Id>, attempts: seq<Attempt>): (r: seq<Check>)
    requires |attempts| == |ids|
    requires forall k :: 0 <= k < |ids| ==> ids[k] in svcs
    ensures |r| <= |ids|
  {
    if ids == [] then []
    else
      var n := |ids| - 1;
      assert forall k :: 0 <= k < n ==> ids[..n][k] == ids[k];
      RecordedChecks(svcs, ids[..n], attempts[..n]) + RecordedCheck(ids[n], svcs[ids[n]], attempts[n])
  }

  /** Every check row of a round belongs to a listed service with an
      endpoint, carries the round's clock reading for it and the probe's
      verdict. */
  lemma {:induction false} RecordedChecksRows(svcs: map<Id, Service>, ids: seq<Id>, attempts: seq<Attempt>)
    requires |attempts| == |ids|
    requires forall k :: 0 <= k < |ids| ==> ids[k] in svcs
    ensures forall c :: c in RecordedChecks(svcs, ids, attempts) ==>
      exists k :: 0 <= k < |ids| && c.serviceId == ids[k] && Truthy(svcs[ids[k]].endpoint) &&
        c == Check(ids[k], Classify(attempts[k].outcome).up, Classify(attempts[k].outcome).responseTime, attempts[k].at)
  {
    if ids != [] {
      var n := |ids| - 1;
      var init, ainit := ids[..n], attempts[..n];
      assert forall j :: 0 <= j < n ==> init[j] == ids[j] && ainit[j] == attempts[j];
      RecordedChecksRows(svcs, init, ainit);
    }
  }

  /** How many of the rows belong to service `sid`. */
  function ChecksOf(cs: seq<Check>, sid: Id): nat {
    if cs == [] then 0
    else ChecksOf(cs[..|cs| - 1], sid) + (if cs[|cs| - 1].serviceId == sid then 1 else 0)
  }

  /** How many times `sid` is listed. */
  function Occurrences(ids: seq<Id>, sid: Id): (n: nat)
    ensures n == 0 <==> sid !in ids
  {
    if ids == [] then 0
    else
      var n := |ids| - 1;
      assert ids == ids[..n] + [ids[n]];
      Occurrences(ids[..n], sid) + (if ids[n] == sid then 1 else 0)
  }

  lemma ChecksOfAppend(cs: seq<Check>, tail: seq<Check>, sid: Id)
    requires |tail| <= 1
    ensures ChecksOf(cs + tail, sid) == ChecksOf(cs, sid) + ChecksOf(tail, sid)
  {
    if tail == [] {
      assert cs + tail == cs;
    } else {
      assert (cs + tail)[..|cs|] == cs;
    }
  }

  /** A round writes at most one check row per listing of a service, and
      none for a service it does not list. */
  lemma {:induction false} RecordedChecksPerService(svcs: map<Id, Service>, ids: seq<Id>, attempts: seq<Attempt>, sid: Id)
    requires |attempts| == |ids|
    requires forall k :: 0 <= k < |ids| ==> ids[k] in svcs
    ensures ChecksOf(RecordedChecks(svcs, ids, attempts), sid) <= Occurrences(ids, sid)
    ensures sid !in ids ==> ChecksOf(RecordedChecks(svcs, ids, attempts), sid) == 0
  {
    if ids != [] {
      var n := |ids| - 1;
      var init, ainit := ids[..n], attempts[..n];
      assert forall j :: 0 <= j < n ==> init[j] == ids[j];
      RecordedChecksPerService(svcs, init, ainit, sid);
      var tail := RecordedCheck(ids[n], svcs[ids[n]], attempts[n]);
      ChecksOfAppend(RecordedChecks(svcs, init, ainit), tail, sid);
      RecordedCheckOf(ids[n], svcs[ids[n]], attempts[n], sid);
      assert RecordedChecks(svcs, ids, attempts) == RecordedChecks(svcs, init, ainit) + tail;
      assert Occurrences(ids, sid) == Occurrences(init, sid) + (if ids[n] == sid then 1 else 0);
    }
  }

  lemma RecordedCheckOf(id: Id, s: Service, a: Attempt, sid: Id)
    ensures ChecksOf(RecordedCheck(id, s, a), sid) <= (if id == sid then 1 else 0)
  {
    var tail := RecordedCheck(id, s, a);
    if tail != [] {
      assert tail[..0] == [];
    }
  }

  /** Proof step for the check loop: one more service, its own rows
      appended. */
  lemma RecordedChecksStep(svcs: map<Id, Service>, ids: seq<Id>, attempts: seq<Attempt>, i: nat)
    requires |attempts| == |ids| && i < |ids|
    requires forall k :: 0 <= k < |ids| ==> ids[k] in svcs
    ensures RecordedChecks(svcs, ids[..i + 1], attempts[..i + 1]) ==
      RecordedChecks(svcs, ids[..i], attempts[..i]) + RecordedCheck(ids[i], svcs[ids[i]], attempts[i])
  {
    assert ids[..i + 1][..i] == ids[..i];
    assert attempts[..i + 1][..i] == attempts[..i];
  }

  /** Running the rollups of a schedule one after the other. */
  function RunSchedule(ms: seq<Metric>, checks: seq<Check>, ids: seq<Id>, schedule: seq<(Period, nat)>, now: int): seq<Metric>
  {
    if schedule == [] then ms
    else
      var n := |schedule| - 1;
      UpsertAll(RunSchedule(ms, checks, ids, schedule[..n], now), PeriodRollups(checks, ids, schedule[n].0, schedule[n].1, now))
  }

  /** Proof step for the schedule loop: one more rollup of the schedule. */
  lemma RunScheduleStep(ms: seq<Metric>, checks: seq<Check>, ids: seq<Id>, schedule: seq<(Period, nat)>, i: nat, now: int)
    requires i < |schedule|
    ensures RunSchedule(ms, checks, ids, schedule[..i + 1], now) ==
      UpsertAll(RunSchedule(ms, checks, ids, schedule[..i], now), PeriodRollups(checks, ids, schedule[i].0, schedule[i].1, now))
  {
    assert schedule[..i + 1][..i] == schedule[..i];
  }

  class UptimeService {
    const db: Database
    /** Seconds between two rounds. */
    const checkInterval: nat

    constructor (db: Database)
      ensures this.db == db && checkInterval == 60
    {
      this.db := db;
      checkInterval := 60;
    }

    /** One iteration of the probing round, for the fetched row `service`
        of service `id`: record the check, then correct the status. */
    method CheckService(id: Id, service: Service, a: Attempt)
      modifies db
      ensures db.services ==
        match StatusWrite(service, a, ActiveIncidents(old(db.incidents), id) != {})
        case None => old(db.services)
        case Some(st) => old(db.services)[id := service.(status := st)]
      ensures db.checks == old(db.checks) + RecordedCheck(id, service, a)
      ensures db.incidents == old(db.incidents) && db.updates == old(db.updates)
      ensures db.users == old(db.users) && db.metrics == old(db.metrics)
    {
      if service.endpoint.Some? && service.endpoint.value != "" {
        var probe := Classify(a.outcome);
        if a.fault != RecordFails {
          db.checks := db.checks + [Check(id, probe.up, probe.responseTime, a.at)];
          if a.fault == NoFault {
            if !probe.up && service.status == "operational" {
              db.services := db.services[id := service.(status := "partial_outage")];
            } else if probe.up && service.status != "operational" {
              var active := ActiveIncidents(db.incidents, id);
              if |active| == 0 {
                db.services := db.services[id := service.(status := "operational")];
              }
            }
          }
        }
      }
    }

    /** One probing round.  `ids` is the answer of the query for services
        whose endpoint is not null, in its order; `attempts[k]` is what
        happens to `ids[k]`.  The decisions use the rows as fetched. */
    method CheckAllServices(ids: seq<Id>, attempts: seq<Attempt>)
      requires |attempts| == |ids|
      requires forall k :: 0 <= k < |ids| ==> ids[k] in db.services
      modifies db
      ensures db.services == CheckedServices(old(db.services), old(db.incidents), ids, attempts)
      ensures db.checks == old(db.checks) + RecordedChecks(old(db.services), ids, attempts)
      ensures db.incidents == old(db.incidents) && db.updates == old(db.updates)
      ensures db.users == old(db.users) && db.metrics == old(db.metrics)
    {
      var services := db.services;
      var i := 0;
      while i < |ids|
        invariant 0 <= i <= |ids|
        invariant db.services == CheckedServices(services, db.incidents, ids[..i], attempts[..i])
        invariant db.checks == old(db.checks) + RecordedChecks(services, ids[..i], attempts[..i])
        invariant db.incidents == old(db.incidents) && db.updates == old(db.updates)
        invariant db.users == old(db.users) && db.metrics == old(db.metrics)
      {
        CheckedServicesStep(services, db.incidents, ids, attempts, i);
        RecordedChecksStep(services, ids, attempts, i);
        CheckService(ids[i], services[ids[i]], attempts[i]);
        i := i + 1;
      }
      assert ids[..i] == ids;
      assert attempts[..i] == attempts;
    }

    /** One iteration of a period rollup: the window's checks of service
        `id`, and when there are any, the row computed from them written with
        find-then-update-or-create. */
    method RollUpService(id: Id, period: Period, days: nat, start: int, end: int)
      modifies db
      ensures db.metrics == Stash(old(db.metrics), Rollup(old(db.checks), id, period, days, start, end))
      ensures db.services == old(db.services) && db.incidents == old(db.incidents)
      ensures db.updates == old(db.updates) && db.users == old(db.users) && db.checks == old(db.checks)
    {
      var checks := WindowChecks(db.checks, id, start, end);
      if |checks| > 0 {
        var m := ComputeMetric(checks, id, period, start, end, days);
        db.metrics := Upsert(db.metrics, m);
      }
    }

    /** The rollup of one period over the `days` days before today's
        midnight, for every service of the query for non-null endpoints. */
    method CalculatePeriodMetrics(ids: seq<Id>, period: Period, days: nat, now: int)
      modifies db
      ensures db.metrics == UpsertAll(old(db.metrics), PeriodRollups(old(db.checks), ids, period, days, now))
      ensures db.services == old(db.services) && db.incidents == old(db.incidents)
      ensures db.updates == old(db.updates) && db.users == old(db.users) && db.checks == old(db.checks)
    {
      var end := Midnight(now);
      var start := end - days * SecondsPerDay;
      var i := 0;
      while i < |ids|
        invariant 0 <= i <= |ids|
        invariant db.metrics == StashAll(old(db.metrics), RollupList(db.checks, ids[..i], period, days, start, end))
        invariant db.services == old(db.services) && db.incidents == old(db.incidents)
        invariant db.updates == old(db.updates) && db.users == old(db.users) && db.checks == old(db.checks)
      {
        RollupListStep(db.checks, ids, i, period, days, start, end);
        StashAllSnoc(old(db.metrics), RollupList(db.checks, ids[..i], period, days, start, end),
          Rollup(db.checks, ids[i], period, days, start, end));
        RollUpService(ids[i], period, days, start, end);
        i := i + 1;
      }
      assert ids[..i] == ids;
      StashAllIsUpsertAll(old(db.metrics), RollupList(db.checks, ids, period, days, start, end));
      PeriodRollupsWindow(db.checks, ids, period, days, now, start, end);
    }

    /** The rollups of one monitoring round, chosen by the wall clock `t`;
        `now` is the same instant in seconds. */
    method CalculateMetrics(ids: seq<Id>, t: WallClock, now: int)
      requires ValidClock(t)
      requires (now % SecondsPerDay) / 60 == t.hour * 60 + t.minute
      modifies db
      ensures db.metrics == RunSchedule(old(db.metrics), old(db.checks), ids, ScheduledRollups(t, checkInterval), now)
      ensures db.services == old(db.services) && db.incidents == old(db.incidents)
      ensures db.updates == old(db.updates) && db.users == old(db.users) && db.checks == old(db.checks)
    {
      var schedule := ScheduledRollups(t, checkInterval);
      var i := 0;
      while i < |schedule|
        invariant 0 <= i <= |schedule|
        invariant db.metrics == RunSchedule(old(db.metrics), old(db.checks), ids, schedule[..i], now)
        invariant db.services == old(db.services) && db.incidents == old(db.incidents)
        invariant db.updates == old(db.updates) && db.users == old(db.users) && db.checks == old(db.checks)
      {
        RunScheduleStep(old(db.metrics), old(db.checks), ids, schedule, i, now);
        CalculatePeriodMetrics(ids, schedule[i].0, schedule[i].1, now);
        i := i + 1;
      }
      assert schedule[..i] == schedule;
    }
  }

  /** Recomputing a rollup over unchanged checks leaves the metric table as
      the first computation left it. */
  lemma RecomputeIsIdempotent(ms: seq<Metric>, checks: seq<Check>, ids: seq<Id>, period: Period, days: nat, start: int, end: int)
    requires forall i, j :: 0 <= i < j < |ids| ==> ids[i] != ids[j]
    ensures var rs := Rollups(checks, ids, period, days, start, end);
      UpsertAll(UpsertAll(ms, rs), rs) == UpsertAll(ms, rs)
  {
    RollupsUniqueKeys(checks, ids, period, days, start, end);
    UpsertAllIdempotent(ms, Rollups(checks, ids, period, days, start, end));
  }
}
