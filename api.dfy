/** The request handlers that change or read service and incident state:
    the status validator of service creation, the service update, incident
    creation and update with their propagation of the incident status to the
    linked services, the current-uptime report and the manual check.  The
    handlers change the store and the connection registry in place; the
    notifications they ask for are returned, in order, as `Notice` values
    (what each does is modelled by module Notifications). */
module Api {
  import opened Entities
  import opened Store
  import opened Connections
  import Uptime

  datatype ApiError =
    | NotFound      // 404
    | BadRequest    // 400
    | Invalid       // the request model rejects the body
    | ServerError   // a broadcast send raised after the changes were made

  /** A call into the notification service. */
  datatype Notice =
    | StatusChangeNotice(serviceId: Id, oldStatus: string, newStatus: string)
    | NewIncidentNotice(incidentId: Id)
    | ResolvedNotice(incidentId: Id)

  // ---------------------------------------------------------------------
  // Service creation: the status validator
  // ---------------------------------------------------------------------

  /** The validator of the status field of a new service: a given value is
      accepted exactly when it is one of the five service statuses.  `None`
      stands for an explicit null; an omitted status takes the default
      "operational" and is not validated. */
  function ValidateStatus(v: Option<string>): (r: Result<string, ApiError>)
    ensures r.Ok? <==> v.Some? && v.value in ServiceStatuses
    ensures r.Ok? ==> r.value == v.value
    ensures r.Err? ==> r.error == Invalid
  {
    if v.Some? && v.value in ServiceStatuses then Ok(v.value) else Err(Invalid)
  }

  /** The five statuses pass; an incident status such as "resolved", which
      incident propagation writes into services, does not. */
  lemma ValidateStatusExamples()
    ensures forall st :: st in ServiceStatuses ==> ValidateStatus(Some(st)) == Ok(st)
    ensures ValidateStatus(Some("resolved")).Err? && ValidateStatus(Some("investigating")).Err?
    ensures ValidateStatus(Some("")).Err? && ValidateStatus(Some("Operational")).Err?
    ensures ValidateStatus(None).Err?
  {
  }

  // ---------------------------------------------------------------------
  // Service update
  // ---------------------------------------------------------------------

  datatype ServiceUpdate = ServiceUpdate(
    name: Option<string>,
    description: Option<string>,
    status: Option<string>,
    endpoint: Option<string>)

  /** The fields of the update that are not None, by field name. */
  function UpdatedData(u: ServiceUpdate): (r: map<string, string>)
    ensures "name" in r <==> u.name.Some?
    ensures "description" in r <==> u.description.Some?
    ensures "status" in r <==> u.status.Some?
    ensures "endpoint" in r <==> u.endpoint.Some?
    ensures r.Keys <= {"name", "description", "status", "endpoint"}
  {
    (if u.name.Some? then map["name" := u.name.value] else map[]) +
    (if u.description.Some? then map["description" := u.description.value] else map[]) +
    (if u.status.Some? then map["status" := u.status.value] else map[]) +
    (if u.endpoint.Some? then map["endpoint" := u.endpoint.value] else map[])
  }

  /** Writing a field map into a service row. */
  function ApplyData(s: Service, data: map<string, string>): Service {
    Service(
      if "name" in data then data["name"] else s.name,
      if "description" in data then Some(data["description"]) else s.description,
      if "status" in data then data["status"] else s.status,
      if "endpoint" in data then Some(data["endpoint"]) else s.endpoint,
      s.organizationId)
  }

  /** Each given field is written, each absent one is kept, the organization
      never changes; applying the same update twice is applying it once,
      and an empty update changes nothing. */
  lemma ApplyUpdateSpec(s: Service, u: ServiceUpdate)
    ensures var r := ApplyData(s, UpdatedData(u));
      r.name == (if u.name.Some? then u.name.value else s.name) &&
      r.description == (if u.description.Some? then u.description else s.description) &&
      r.status == (if u.status.Some? then u.status.value else s.status) &&
      r.endpoint == (if u.endpoint.Some? then u.endpoint else s.endpoint) &&
      r.organizationId == s.organizationId
    ensures ApplyData(ApplyData(s, UpdatedData(u)), UpdatedData(u)) == ApplyData(s, UpdatedData(u))
    ensures u == ServiceUpdate(None, None, None, None) ==> ApplyData(s, UpdatedData(u)) == s
  {
  }

  /** The status-change notification of a service update. */
  predicate StatusNotificationFires(given: Option<string>, oldStatus: string) {
    Truthy(given) && given.value != oldStatus
  }

  /** The live update of a service update. */
  predicate BroadcastFires(given: Option<string>) {
    Truthy(given)
  }

  /** A notification always comes with a broadcast; a broadcast comes
      without one exactly when the given status equals the old one; an
      empty status is written but announced by neither. */
  lemma ServiceUpdateAnnouncements(given: Option<string>, oldStatus: string)
    ensures StatusNotificationFires(given, oldStatus) ==> BroadcastFires(given)
    ensures BroadcastFires(given) && !StatusNotificationFires(given, oldStatus) <==>
      given.Some? && given.value == oldStatus && oldStatus != ""
    ensures given == Some("") ==> !BroadcastFires(given) && !StatusNotificationFires(given, oldStatus)
  {
  }

  // ---------------------------------------------------------------------
  // Incident status propagation
  // ---------------------------------------------------------------------

  /** The statuses after one listed service is looked up and, when it
      exists with another status, given the incident's status. */
  function SetStatus(svcs: map<Id, Service>, id: Id, status: string): map<Id, Service> {
    if id in svcs && svcs[id].status != status then svcs[id := svcs[id].(status := status)] else svcs
  }

  /** The service table after the propagation loop over `ids`. */
  function Propagated(svcs: map<Id, Service>, ids: seq<Id>, status: string): map<Id, Service> {
    if ids == [] then svcs
    else
      var n := |ids| - 1;
      SetStatus(Propagated(svcs, ids[..n], status), ids[n], status)
  }

  /** The status-change notices of one step. */
  function StepNotices(svcs: map<Id, Service>, id: Id, status: string): seq<Notice> {
    if id in svcs && svcs[id].status != status then [StatusChangeNotice(id, svcs[id].status, status)] else []
  }

  /** The status-change notices of the propagation loop, in order. */
  function PropagationNotices(svcs: map<Id, Service>, ids: seq<Id>, status: string): seq<Notice> {
    if ids == [] then []
    else
      var n := |ids| - 1;
      PropagationNotices(svcs, ids[..n], status) + StepNotices(Propagated(svcs, ids[..n], status), ids[n], status)
  }

  /** Proof step for the propagation loop: one more listed service is one
      more step of both folds. */
  lemma PropagationStep(svcs: map<Id, Service>, ids: seq<Id>, status: string, i: nat)
    requires i < |ids|
    ensures Propagated(svcs, ids[..i + 1], status) == SetStatus(Propagated(svcs, ids[..i], status), ids[i], status)
    ensures PropagationNotices(svcs, ids[..i + 1], status) ==
      PropagationNotices(svcs, ids[..i], status) + StepNotices(Propagated(svcs, ids[..i], status), ids[i], status)
  {
    assert ids[..i + 1][..i] == ids[..i];
  }

  /** Every listed service that exists ends with the incident's status,
      with its other fields kept; every other service is untouched; no
      service appears or disappears. */
  lemma {:induction false} PropagatedAt(svcs: map<Id, Service>, ids: seq<Id>, status: string, id: Id)
    ensures Propagated(svcs, ids, status).Keys == svcs.Keys
    ensures id in svcs ==>
      Propagated(svcs, ids, status)[id] == if id in ids then svcs[id].(status := status) else svcs[id]
  {
    if ids != [] {
      var n := |ids| - 1;
      PropagatedAt(svcs, ids[..n], status, id);
      assert id in ids <==> id in ids[..n] || id == ids[n] by {
        assert ids == ids[..n] + [ids[n]];
      }
    }
  }

  /** A notice names a service that exists, whose original status differs
      from the incident's, with that original status as the old one. */
  lemma {:induction false} PropagationNoticesSound(svcs: map<Id, Service>, ids: seq<Id>, status: string, k: nat)
    requires k < |PropagationNotices(svcs, ids, status)|
    ensures var e := PropagationNotices(svcs, ids, status)[k];
      e.StatusChangeNotice? && e.serviceId in ids && e.serviceId in svcs &&
      e.oldStatus == svcs[e.serviceId].status && e.oldStatus != status && e.newStatus == status
  {
    var n := |ids| - 1;
    var init := PropagationNotices(svcs, ids[..n], status);
    if k < |init| {
      PropagationNoticesSound(svcs, ids[..n], status, k);
    } else {
      PropagatedAt(svcs, ids[..n], status, ids[n]);
    }
  }

  /** Some status-change notice names the service. */
  ghost predicate Notified(ns: seq<Notice>, id: Id) {
    exists k :: 0 <= k < |ns| && ns[k].StatusChangeNotice? && ns[k].serviceId == id
  }

  /** A service is notified about exactly when it is listed, exists and had
      another status. */
  lemma {:induction false} PropagationNoticeFor(svcs: map<Id, Service>, ids: seq<Id>, status: string, id: Id)
    ensures Notified(PropagationNotices(svcs, ids, status), id) <==>
      id in ids && id in svcs && svcs[id].status != status
  {
    if ids != [] {
      var n := |ids| - 1;
      var init := PropagationNotices(svcs, ids[..n], status);
      var step := StepNotices(Propagated(svcs, ids[..n], status), ids[n], status);
      var ns := init + step;
      assert ns == PropagationNotices(svcs, ids, status);
      PropagationNoticeFor(svcs, ids[..n], status, id);
      PropagatedAt(svcs, ids[..n], status, ids[n]);
      assert ids == ids[..n] + [ids[n]];
      if Notified(ns, id) {
        var k :| 0 <= k < |ns| && ns[k].StatusChangeNotice? && ns[k].serviceId == id;
        if k < |init| {
          assert init[k] == ns[k];
          assert Notified(init, id);
        } else {
          assert step[k - |init|] == ns[k];
        }
      }
      if id in ids && id in svcs && svcs[id].status != status {
        if id in ids[..n] {
          var k :| 0 <= k < |init| && init[k].StatusChangeNotice? && init[k].serviceId == id;
          assert ns[k] == init[k];
        } else {
          assert id == ids[n];
          assert ns[|init|] == step[0];
        }
        assert Notified(ns, id);
      }
    }
  }

  /** No service is notified about twice, even when it is listed twice. */
  ghost predicate NotifiedOnce(ns: seq<Notice>) {
    forall i, j :: 0 <= i < j < |ns| && ns[i].StatusChangeNotice? && ns[j].StatusChangeNotice? ==>
      ns[i].serviceId != ns[j].serviceId
  }

  lemma {:induction false} PropagationNoticesOnce(svcs: map<Id, Service>, ids: seq<Id>, status: string)
    ensures NotifiedOnce(PropagationNotices(svcs, ids, status))
  {
    if ids != [] {
      var n := |ids| - 1;
      var init := PropagationNotices(svcs, ids[..n], status);
      var prev := Propagated(svcs, ids[..n], status);
      var step := StepNotices(prev, ids[n], status);
      PropagationNoticesOnce(svcs, ids[..n], status);
      var ns := init + step;
      assert ns == PropagationNotices(svcs, ids, status);
      forall i, j | 0 <= i < j < |ns| && ns[i].StatusChangeNotice? && ns[j].StatusChangeNotice?
        ensures ns[i].serviceId != ns[j].serviceId
      {
        if j < |init| {
          assert ns[i] == init[i] && ns[j] == init[j];
        } else {
          assert |step| <= 1 && j == |init| && i < |init|;
          PropagatedAt(svcs, ids[..n], status, ids[n]);
          assert ids[n] !in ids[..n];
          assert ns[j] == step[0] && step[0].serviceId == ids[n];
          assert ns[i] == init[i];
          PropagationNoticesSound(svcs, ids[..n], status, i);
        }
      }
    }
  }

  // ---------------------------------------------------------------------
  // Incident update
  // ---------------------------------------------------------------------

  datatype IncidentCreate = IncidentCreate(
    title: string,
    description: string,
    status: string,
    serviceIds: seq<Id>,
    organizationId: Id)

  datatype IncidentUpdate = IncidentUpdate(
    title: Option<string>,
    description: Option<string>,
    status: Option<string>,
    serviceIds: Option<seq<Id>>)

  /** The services a list links. */
  function IdSet(ids: seq<Id>): (r: set<Id>)
    ensures forall id :: id in r <==> id in ids
  {
    set k | k in ids
  }

  /** The incident row after an update: the given fields are written, and
      the links are replaced only by a non-empty list of services. */
  function ApplyIncidentUpdate(i: Incident, u: IncidentUpdate): (r: Incident)
    ensures r.organizationId == i.organizationId
  {
    Incident(
      if u.title.Some? then u.title.value else i.title,
      if u.description.Some? then u.description.value else i.description,
      if u.status.Some? then u.status.value else i.status,
      if u.serviceIds.Some? && u.serviceIds.value != [] then IdSet(u.serviceIds.value) else i.serviceIds,
      i.organizationId)
  }

  /** Each given field is written and each absent one kept; a non-empty
      list replaces the links by the services it names and an absent or
      empty one keeps them; applying the same update twice is applying it
      once. */
  lemma ApplyIncidentUpdateSpec(i: Incident, u: IncidentUpdate)
    ensures var r := ApplyIncidentUpdate(i, u);
      r.title == (if u.title.Some? then u.title.value else i.title) &&
      r.description == (if u.description.Some? then u.description.value else i.description) &&
      r.status == (if u.status.Some? then u.status.value else i.status) &&
      (u.serviceIds.Some? && u.serviceIds.value != [] ==> forall id :: id in r.serviceIds <==> id in u.serviceIds.value) &&
      (u.serviceIds.None? || u.serviceIds.value == [] ==> r.serviceIds == i.serviceIds) &&
      ApplyIncidentUpdate(r, u) == r
  {
  }

  /** The resolved notification of an incident update. */
  predicate ResolvedFires(given: Option<string>, oldStatus: string) {
    Truthy(given) && given.value == "resolved" && oldStatus != "resolved"
  }

  /** The resolved notification fires only on the transition into
      "resolved", and an update that fires it leaves the incident resolved,
      so no later update fires it again until the status leaves
      "resolved". */
  lemma ResolvedFiresOnce(i: Incident, u: IncidentUpdate, later: IncidentUpdate)
    ensures ResolvedFires(u.status, i.status) <==> u.status == Some("resolved") && i.status != "resolved"
    ensures ResolvedFires(u.status, i.status) ==>
      ApplyIncidentUpdate(i, u).status == "resolved" &&
      !ResolvedFires(later.status, ApplyIncidentUpdate(i, u).status)
  {
  }

  /** An empty list of services is falsy: it neither replaces the links nor
      starts propagation. */
  lemma EmptyServiceListIgnored(i: Incident, u: IncidentUpdate)
    requires u.serviceIds == Some([])
    ensures ApplyIncidentUpdate(i, u).serviceIds == i.serviceIds
  {
  }

  /** Whether an incident update propagates its status to the listed
      services. */
  predicate PropagatesStatus(u: IncidentUpdate) {
    u.serviceIds.Some? && u.serviceIds.value != [] && Truthy(u.status)
  }

  // ---------------------------------------------------------------------
  // Reads: current uptime and the manual check
  // ---------------------------------------------------------------------

  /** The report of the current-uptime endpoint. */
  datatype UptimeReport =
    | NoData
    | Report(uptime: real, checksCount: nat, lastCheck: int, currentUp: bool)

  /** The checks of a service at or after `since`, in table order. */
  function RecentChecks(checks: seq<Check>, sid: Id, since: int): (r: seq<Check>)
    ensures |r| <= |checks|
  {
    if checks == [] then []
    else
      var n := |checks| - 1;
      var c := checks[n];
      RecentChecks(checks[..n], sid, since) + (if c.serviceId == sid && c.timestamp >= since then [c] else [])
  }

  /** A check is recent exactly when it belongs to the service and is not
      older than a day; later checks are not cut off. */
  lemma {:induction false} RecentChecksMembers(checks: seq<Check>, sid: Id, since: int)
    ensures forall c :: c in RecentChecks(checks, sid, since) <==>
      c in checks && c.serviceId == sid && c.timestamp >= since
  {
    if checks != [] {
      var n := |checks| - 1;
      RecentChecksMembers(checks[..n], sid, since);
      assert checks == checks[..n] + [checks[n]];
    }
  }

  /** A check is recent as many times as the table holds it, and no
      other check is. */
  lemma {:induction false} RecentChecksMultiset(checks: seq<Check>, sid: Id, since: int)
    ensures forall c :: multiset(RecentChecks(checks, sid, since))[c] == if c.serviceId == sid && c.timestamp >= since then multiset(checks)[c] else 0
  {
    if checks != [] {
      var n := |checks| - 1;
      RecentChecksMultiset(checks[..n], sid, since);
      assert checks == checks[..n] + [checks[n]];
    }
  }

  /** The recent checks of a table split in two are those of the first part
      followed by those of the second: with RecentChecksSingle, the query
      keeps table order. */
  lemma {:induction false} RecentChecksAppend(a: seq<Check>, b: seq<Check>, sid: Id, since: int)
    ensures RecentChecks(a + b, sid, since) == RecentChecks(a, sid, since) + RecentChecks(b, sid, since)
  {
    if b == [] {
      assert a + b == a;
    } else {
      var n := |b| - 1;
      var ab := a + b;
      var c := b[n];
      var step := if c.serviceId == sid && c.timestamp >= since then [c] else [];
      assert ab[..|a| + n] == a + b[..n];
      assert ab[|a| + n] == c;
      RecentChecksAppend(a, b[..n], sid, since);
      assert RecentChecks(ab, sid, since) == RecentChecks(a + b[..n], sid, since) + step;
      assert RecentChecks(b, sid, since) == RecentChecks(b[..n], sid, since) + step;
    }
  }

  /** A single check is kept exactly when it is recent. */
  lemma RecentChecksSingle(c: Check, sid: Id, since: int)
    ensures RecentChecks([c], sid, since) == if c.serviceId == sid && c.timestamp >= since then [c] else []
  {
  }

  /** The last recent check is the table's last row of the service not
      older than `since`. */
  lemma {:induction false} RecentChecksLast(checks: seq<Check>, sid: Id, since: int, j: nat)
    requires j < |checks| && checks[j].serviceId == sid && checks[j].timestamp >= since
    requires forall k :: j < k < |checks| ==> !(checks[k].serviceId == sid && checks[k].timestamp >= since)
    ensures var cs := RecentChecks(checks, sid, since); cs != [] && cs[|cs| - 1] == checks[j]
  {
    var n := |checks| - 1;
    if j < n {
      RecentChecksLast(checks[..n], sid, since, j);
    }
  }

  /** The current uptime of a service over the last day as seen at `now`. */
  function CurrentUptime(services: map<Id, Service>, checks: seq<Check>, sid: Id, now: int): (r: Result<UptimeReport, ApiError>)
    ensures r.Err? <==> sid !in services
    ensures r.Err? ==> r.error == NotFound
  {
    if sid !in services then Err(NotFound)
    else
      var cs := RecentChecks(checks, sid, now - Uptime.SecondsPerDay);
      if cs == [] then Ok(NoData)
      else Ok(Report(Uptime.UptimePercentage(Uptime.UpCount(cs), |cs|), |cs|, cs[|cs| - 1].timestamp, cs[|cs| - 1].up))
  }

  /** No recent check gives no figure; otherwise the figure is a percentage
      that is 100 exactly when every recent check is up and 0 exactly when
      none is, and the latest check decides the current status. */
  lemma CurrentUptimeSpec(services: map<Id, Service>, checks: seq<Check>, sid: Id, now: int)
    requires sid in services
    ensures var r := CurrentUptime(services, checks, sid, now);
      var cs := RecentChecks(checks, sid, now - Uptime.SecondsPerDay);
      (r == Ok(NoData) <==> forall c :: c in checks ==> !(c.serviceId == sid && c.timestamp >= now - Uptime.SecondsPerDay)) &&
      (r.value.Report? ==>
        r.value.checksCount == |cs| &&
        0.0 <= r.value.uptime <= 100.0 &&
        (r.value.uptime == 100.0 <==> forall c :: c in cs ==> c.up) &&
        (r.value.uptime == 0.0 <==> forall c :: c in cs ==> !c.up) &&
        r.value.currentUp == cs[|cs| - 1].up)
  {
    var cs := RecentChecks(checks, sid, now - Uptime.SecondsPerDay);
    RecentChecksMembers(checks, sid, now - Uptime.SecondsPerDay);
    if cs != [] {
      Uptime.UpCountSpec(cs);
      Uptime.UptimePercentageSpec(Uptime.UpCount(cs), |cs|);
      assert cs[0] in cs;
    }
  }

  /** The report's last check is the table's last row of the service from
      the past day: its time and its verdict. */
  lemma CurrentUptimeLatest(services: map<Id, Service>, checks: seq<Check>, sid: Id, now: int, j: nat)
    requires sid in services
    requires j < |checks| && checks[j].serviceId == sid && checks[j].timestamp >= now - Uptime.SecondsPerDay
    requires forall k :: j < k < |checks| ==> !(checks[k].serviceId == sid && checks[k].timestamp >= now - Uptime.SecondsPerDay)
    ensures var r := CurrentUptime(services, checks, sid, now);
      r.Ok? && r.value.Report? &&
      r.value.lastCheck == checks[j].timestamp && r.value.currentUp == checks[j].up
  {
    RecentChecksLast(checks, sid, now - Uptime.SecondsPerDay, j);
  }

  /** The manual check: 404 for an unknown service, 400 for one without an
      endpoint (a missing or empty one), otherwise the endpoint to probe in
      the background. */
  function TriggerServiceCheck(services: map<Id, Service>, sid: Id): (r: Result<string, ApiError>)
    ensures r.Ok? <==> sid in services && Truthy(services[sid].endpoint)
    ensures r.Ok? ==> r.value == services[sid].endpoint.value && r.value != ""
    ensures sid !in services ==> r == Err(NotFound)
    ensures sid in services && !Truthy(services[sid].endpoint) ==> r == Err(BadRequest)
  {
    if sid !in services then Err(NotFound)
    else if !Truthy(services[sid].endpoint) then Err(BadRequest)
    else Ok(services[sid].endpoint.value)
  }

  // ---------------------------------------------------------------------
  // The handlers
  // ---------------------------------------------------------------------

  class Handlers {
    const db: Database
    const manager: ConnectionManager

    constructor (db: Database, manager: ConnectionManager)
      ensures this.db == db && this.manager == manager
    {
      this.db := db;
      this.manager := manager;
    }

    /** The loop shared by incident creation and update: each listed service
        that exists with another status gets the incident's status and a
        status-change notice. */
    method PropagateStatus(ids: seq<Id>, status: string) returns (notices: seq<Notice>)
      modifies db
      ensures db.services == Propagated(old(db.services), ids, status)
      ensures notices == PropagationNotices(old(db.services), ids, status)
      ensures db.incidents == old(db.incidents) && db.updates == old(db.updates)
      ensures db.users == old(db.users) && db.checks == old(db.checks) && db.metrics == old(db.metrics)
    {
      notices := [];
      var i := 0;
      while i < |ids|
        invariant 0 <= i <= |ids|
        invariant db.services == Propagated(old(db.services), ids[..i], status)
        invariant notices == PropagationNotices(old(db.services), ids[..i], status)
        invariant db.incidents == old(db.incidents) && db.updates == old(db.updates)
        invariant db.users == old(db.users) && db.checks == old(db.checks) && db.metrics == old(db.metrics)
      {
        PropagationStep(old(db.services), ids, status, i);
        var id := ids[i];
        if id in db.services {
          var service := db.services[id];
          if service.status != status {
            db.services := db.services[id := service.(status := status)];
            notices := notices + [StatusChangeNotice(id, service.status, status)];
          }
        }
        i := i + 1;
      }
      assert ids[..i] == ids;
    }

    /** Update a service: 404 when it does not exist; otherwise write the
        given fields, ask for a status-change notification when a status is
        given and differs, and broadcast the row whenever a status is
        given.  A raising send makes the request fail after the changes. */
    method UpdateService(sid: Id, u: ServiceUpdate, failing: set<Socket>) returns (r: Result<Service, ApiError>, notices: seq<Notice>)
      modifies db, manager
      ensures sid !in old(db.services) ==>
        r == Err(NotFound) && notices == [] && db.services == old(db.services) &&
        manager.outbox == old(manager.outbox)
      ensures sid in old(db.services) ==>
        var s := ApplyData(old(db.services)[sid], UpdatedData(u));
        var oldStatus := old(db.services)[sid].status;
        db.services == old(db.services)[sid := s] &&
        notices == (if StatusNotificationFires(u.status, oldStatus) then [StatusChangeNotice(sid, oldStatus, u.status.value)] else []) &&
        manager.outbox == (if BroadcastFires(u.status)
          then Deliver(old(manager.outbox), Reached(old(manager.active), failing), ServiceUpdated(sid, s.name, s.status))
          else old(manager.outbox)) &&
        (r.Ok? <==> !BroadcastFires(u.status) || forall c :: c in manager.active ==> c !in failing) &&
        (r.Ok? ==> r.value == s) && (r.Err? ==> r.error == ServerError)
      ensures manager.active == old(manager.active)
      ensures db.incidents == old(db.incidents) && db.updates == old(db.updates)
      ensures db.users == old(db.users) && db.checks == old(db.checks) && db.metrics == old(db.metrics)
    {
      notices := [];
      if sid !in db.services {
        return Err(NotFound), notices;
      }
      var current := db.services[sid];
      var oldStatus := current.status;
      var data := UpdatedData(u);
      var service := ApplyData(current, data);
      db.services := db.services[sid := service];
      if u.status.Some? && u.status.value != "" && u.status.value != oldStatus {
        notices := [StatusChangeNotice(sid, oldStatus, u.status.value)];
      }
      r := Ok(service);
      if u.status.Some? && u.status.value != "" {
        var ok := manager.Broadcast(ServiceUpdated(sid, service.name, service.status), failing);
        if !ok {
          r := Err(ServerError);
        }
      }
    }

    /** Create an incident under the fresh id `iid`, propagate its status to
        the listed services, ask for the new-incident notification and
        broadcast it. */
    method CreateIncident(iid: Id, inc: IncidentCreate, failing: set<Socket>) returns (r: Result<Incident, ApiError>, notices: seq<Notice>)
      requires iid !in db.incidents
      modifies db, manager
      ensures var created := Incident(inc.title, inc.description, inc.status, IdSet(inc.serviceIds), inc.organizationId);
        db.incidents == old(db.incidents)[iid := created] &&
        db.services == Propagated(old(db.services), inc.serviceIds, inc.status) &&
        notices == PropagationNotices(old(db.services), inc.serviceIds, inc.status) + [NewIncidentNotice(iid)] &&
        manager.outbox == Deliver(old(manager.outbox), Reached(old(manager.active), failing),
                                  IncidentCreated(iid, inc.title, inc.status, inc.serviceIds)) &&
        (r.Ok? <==> forall c :: c in manager.active ==> c !in failing) &&
        (r.Ok? ==> r.value == created) && (r.Err? ==> r.error == ServerError)
      ensures manager.active == old(manager.active)
      ensures db.updates == old(db.updates)
      ensures db.users == old(db.users) && db.checks == old(db.checks) && db.metrics == old(db.metrics)
    {
      var created := Incident(inc.title, inc.description, inc.status, IdSet(inc.serviceIds), inc.organizationId);
      db.incidents := db.incidents[iid := created];
      notices := PropagateStatus(inc.serviceIds, inc.status);
      notices := notices + [NewIncidentNotice(iid)];
      var ok := manager.Broadcast(IncidentCreated(iid, inc.title, inc.status, inc.serviceIds), failing);
      r := if ok then Ok(created) else Err(ServerError);
    }

    /** Update an incident: 404 when it does not exist; otherwise write the
        given fields, replace the links by a non-empty list, propagate a
        given status to that list, ask for the resolved notification on the
        transition into "resolved", and broadcast. */
    method UpdateIncident(iid: Id, u: IncidentUpdate, failing: set<Socket>) returns (r: Result<Incident, ApiError>, notices: seq<Notice>)
      modifies db, manager
      ensures iid !in old(db.incidents) ==>
        r == Err(NotFound) && notices == [] && db.incidents == old(db.incidents) &&
        db.services == old(db.services) && manager.outbox == old(manager.outbox)
      ensures iid in old(db.incidents) ==>
        var before := old(db.incidents)[iid];
        var after := ApplyIncidentUpdate(before, u);
        var ids := if PropagatesStatus(u) then u.serviceIds.value else [];
        db.incidents == old(db.incidents)[iid := after] &&
        db.services == Propagated(old(db.services), ids, after.status) &&
        notices == PropagationNotices(old(db.services), ids, after.status) +
          (if ResolvedFires(u.status, before.status) then [ResolvedNotice(iid)] else []) &&
        manager.outbox == Deliver(old(manager.outbox), Reached(old(manager.active), failing),
                                  IncidentUpdated(iid, after.title, after.status, u.serviceIds)) &&
        (r.Ok? <==> forall c :: c in manager.active ==> c !in failing) &&
        (r.Ok? ==> r.value == after) && (r.Err? ==> r.error == ServerError)
      ensures manager.active == old(manager.active)
      ensures db.updates == old(db.updates)
      ensures db.users == old(db.users) && db.checks == old(db.checks) && db.metrics == old(db.metrics)
    {
      notices := [];
      if iid !in db.incidents {
        return Err(NotFound), notices;
      }
      var current := db.incidents[iid];
      var oldStatus := current.status;
      var incident := ApplyIncidentUpdate(current, u);
      db.incidents := db.incidents[iid := incident];
      if u.serviceIds.Some? && u.serviceIds.value != [] {
        if u.status.Some? && u.status.value != "" {
          notices := PropagateStatus(u.serviceIds.value, u.status.value);
        }
      }
      if u.status.Some? && u.status.value != "" && u.status.value == "resolved" && oldStatus != "resolved" {
        notices := notices + [ResolvedNotice(iid)];
      }
      var ok := manager.Broadcast(IncidentUpdated(iid, incident.title, incident.status, u.serviceIds), failing);
      r := if ok then Ok(incident) else Err(ServerError);
    }
  }
}
