/** The e-mail notifications.  Each of the four notifications looks up its
    entity, collects the addresses of the entity's organization's users who
    opted in to that kind of notification, and hands one e-mail to all of
    them to the mail provider.  The provider's verdict is the parameter
    `sendOk`; a failed send is caught and only reported. */
module Notifications {
  import opened Entities
  import Labels

  datatype Kind = StatusChanges | NewIncidents | IncidentUpdates | IncidentResolved

  /** The user has preferences and the flag of this kind is set. */
  predicate Wants(p: Option<Preferences>, kind: Kind) {
    p.Some? &&
    match kind
    case StatusChanges => p.value.serviceStatusChanges
    case NewIncidents => p.value.newIncidents
    case IncidentUpdates => p.value.incidentUpdates
    case IncidentResolved => p.value.incidentResolved
  }

  /** The users of one organization, in table order. */
  function OrgUsers(users: seq<User>, org: Id): seq<User> {
    if users == [] then []
    else (if users[0].organizationId == org then [users[0]] else []) + OrgUsers(users[1..], org)
  }

  function Emails(users: seq<User>): (r: seq<string>)
    ensures |r| == |users|
  {
    if users == [] then [] else [users[0].email] + Emails(users[1..])
  }

  /** The addresses the notification of `kind` goes to. */
  function Recipients(users: seq<User>, org: Id, kind: Kind): (r: seq<string>)
    ensures |r| <= |users|
  {
    if users == [] then []
    else
      var u := users[0];
      (if u.organizationId == org && Wants(u.preferences, kind) then [u.email] else []) +
      Recipients(users[1..], org, kind)
  }

  /** An address is a recipient exactly when some user of the organization
      with that address opted in. */
  lemma {:induction false} RecipientsMembers(users: seq<User>, org: Id, kind: Kind, e: string)
    ensures e in Recipients(users, org, kind) <==>
      exists u :: u in users && u.organizationId == org && Wants(u.preferences, kind) && u.email == e
  {
    if users != [] {
      RecipientsMembers(users[1..], org, kind, e);
      assert forall u :: u in users <==> u == users[0] || u in users[1..];
    }
  }

  /** Nobody is notified exactly when no user of the organization opted in. */
  lemma RecipientsEmpty(users: seq<User>, org: Id, kind: Kind)
    ensures Recipients(users, org, kind) == [] <==>
      forall u :: u in users && u.organizationId == org ==> !Wants(u.preferences, kind)
  {
    if Recipients(users, org, kind) != [] {
      RecipientsMembers(users, org, kind, Recipients(users, org, kind)[0]);
    } else {
      forall u | u in users && u.organizationId == org
        ensures !Wants(u.preferences, kind)
      {
        RecipientsMembers(users, org, kind, u.email);
      }
    }
  }

  /** `a` is `b` with some entries left out, order kept. */
  predicate IsSubsequence(a: seq<string>, b: seq<string>) {
    if b == [] then a == []
    else (a != [] && a[0] == b[0] && IsSubsequence(a[1..], b[1..])) || IsSubsequence(a, b[1..])
  }

  /** The recipients are the addresses of the organization's users, in
      table order, with some left out. */
  lemma {:induction false} RecipientsSubsequence(users: seq<User>, org: Id, kind: Kind)
    ensures IsSubsequence(Recipients(users, org, kind), Emails(OrgUsers(users, org)))
  {
    if users != [] {
      RecipientsSubsequence(users[1..], org, kind);
      var u := users[0];
      var rest := Recipients(users[1..], org, kind);
      var all := Emails(OrgUsers(users[1..], org));
      if u.organizationId == org {
        assert OrgUsers(users, org) == [u] + OrgUsers(users[1..], org);
        assert Emails(OrgUsers(users, org)) == [u.email] + all;
        assert ([u.email] + all)[1..] == all;
        if Wants(u.preferences, kind) {
          assert Recipients(users, org, kind) == [u.email] + rest;
          assert ([u.email] + rest)[1..] == rest;
        } else {
          assert Recipients(users, org, kind) == rest;
        }
      } else {
        assert OrgUsers(users, org) == OrgUsers(users[1..], org);
        assert Recipients(users, org, kind) == rest;
      }
    }
  }

  /** The recipients of a table split in two are those of the first part
      followed by those of the second: with RecipientsSingle, the list
      keeps user order. */
  lemma {:induction false} RecipientsAppend(a: seq<User>, b: seq<User>, org: Id, kind: Kind)
    ensures Recipients(a + b, org, kind) == Recipients(a, org, kind) + Recipients(b, org, kind)
  {
    if a == [] {
      assert a + b == b;
    } else {
      assert (a + b)[0] == a[0];
      assert (a + b)[1..] == a[1..] + b;
      RecipientsAppend(a[1..], b, org, kind);
    }
  }

  /** A single user contributes their address exactly when they belong to
      the organization and opted in. */
  lemma RecipientsSingle(u: User, org: Id, kind: Kind)
    ensures Recipients([u], org, kind) == if u.organizationId == org && Wants(u.preferences, kind) then [u.email] else []
  {
  }

  /** The positions of the opted-in users of the organization with
      address `e`. */
  ghost function OptedInWith(users: seq<User>, org: Id, kind: Kind, e: string): set<int> {
    set i | 0 <= i < |users| && OptsIn(users[i], org, kind, e)
  }

  /** The user belongs to the organization, opted in, and has address `e`. */
  predicate OptsIn(u: User, org: Id, kind: Kind, e: string) {
    u.organizationId == org && Wants(u.preferences, kind) && u.email == e
  }

  /** The positions of a table with one more user are the earlier ones,
      plus the new last position when that user counts. */
  lemma OptedInWithSnoc(users: seq<User>, org: Id, kind: Kind, e: string)
    requires users != []
    ensures var n := |users| - 1;
      OptedInWith(users, org, kind, e) ==
        OptedInWith(users[..n], org, kind, e) + (if OptsIn(users[n], org, kind, e) then {n} else {})
  {
    var n := |users| - 1;
    var init := users[..n];
    assert forall i | 0 <= i < n :: users[i] == init[i];
  }

  /** The same, counted. */
  lemma OptedInWithCard(users: seq<User>, org: Id, kind: Kind, e: string)
    requires users != []
    ensures var n := |users| - 1;
      |OptedInWith(users, org, kind, e)| ==
        |OptedInWith(users[..n], org, kind, e)| + (if OptsIn(users[n], org, kind, e) then 1 else 0)
  {
    var n := |users| - 1;
    OptedInWithSnoc(users, org, kind, e);
    assert n !in OptedInWith(users[..n], org, kind, e);
  }

  /** An address is listed once per opted-in user of the organization who
      has it. */
  lemma {:induction false} RecipientsCount(users: seq<User>, org: Id, kind: Kind, e: string)
    ensures multiset(Recipients(users, org, kind))[e] == |OptedInWith(users, org, kind, e)|
  {
    if users == [] {
      assert OptedInWith(users, org, kind, e) == {};
    } else {
      var n := |users| - 1;
      var init, u := users[..n], users[n];
      RecipientsCount(init, org, kind, e);
      OptedInWithCard(users, org, kind, e);
      assert users == init + [u];
      RecipientsAppend(init, [u], org, kind);
      RecipientsSingle(u, org, kind);
    }
  }

  /** Which notification, with what it says. */
  datatype Body =
    | StatusChange(serviceName: string, oldLabel: string, newLabel: string)
    | NewIncident(title: string, description: string, serviceIds: set<Id>)
    | IncidentUpdate(title: string, message: string)
    | IncidentSolved(title: string)

  datatype Email = Email(to: seq<string>, subject: string, body: Body)

  datatype Skip = EntityMissing | NoRecipients

  /** What a notification does: nothing, for a reason, or one e-mail handed
      to the provider, which accepts it or not. */
  datatype Dispatch = Skipped(reason: Skip) | Attempted(email: Email, delivered: bool)

  /** After the entity is found: skip an empty list, otherwise send one
      e-mail to all recipients. */
  function Send(to: seq<string>, subject: string, body: Body, sendOk: bool): (d: Dispatch)
    ensures d.Skipped? <==> to == []
    ensures d.Skipped? ==> d.reason == NoRecipients
    ensures d.Attempted? ==> d.email.to == to && d.delivered == sendOk
  {
    if to == [] then Skipped(NoRecipients) else Attempted(Email(to, subject, body), sendOk)
  }

  /** Who a found entity's notification reaches: nobody when no user of the
      organization opted in, otherwise one e-mail to the recipient list,
      which holds each address once per opted-in user with it, in user
      order, and whose provider verdict is only reported. */
  ghost predicate Audience(d: Dispatch, users: seq<User>, org: Id, kind: Kind) {
    (d == Skipped(NoRecipients) <==>
      forall u :: u in users && u.organizationId == org ==> !Wants(u.preferences, kind)) &&
    (d.Attempted? ==>
      d.email.to == Recipients(users, org, kind) &&
      IsSubsequence(d.email.to, Emails(OrgUsers(users, org))) &&
      (forall e :: multiset(d.email.to)[e] == |OptedInWith(users, org, kind, e)|) &&
      forall e :: e in d.email.to <==>
        exists u :: u in users && u.organizationId == org && Wants(u.preferences, kind) && u.email == e)
  }

  lemma SendAudience(users: seq<User>, org: Id, kind: Kind, subject: string, body: Body, sendOk: bool)
    ensures Audience(Send(Recipients(users, org, kind), subject, body, sendOk), users, org, kind)
  {
    RecipientsEmpty(users, org, kind);
    RecipientsSubsequence(users, org, kind);
    forall e ensures e in Recipients(users, org, kind) <==>
        exists u :: u in users && u.organizationId == org && Wants(u.preferences, kind) && u.email == e
    {
      RecipientsMembers(users, org, kind, e);
    }
    forall e ensures multiset(Recipients(users, org, kind))[e] == |OptedInWith(users, org, kind, e)| {
      RecipientsCount(users, org, kind, e);
    }
  }

  /** The status-change notification for a service whose status went from
      `oldStatus` to `newStatus`; the e-mail shows both as labels. */
  function SendStatusChange(services: map<Id, Service>, users: seq<User>, serviceId: Id,
                            oldStatus: string, newStatus: string, sendOk: bool): (d: Dispatch)
    ensures d == Skipped(EntityMissing) <==> serviceId !in services
  {
    if serviceId !in services then Skipped(EntityMissing)
    else
      var s := services[serviceId];
      Send(Recipients(users, s.organizationId, StatusChanges), "Service Status Change: " + s.name,
           StatusChange(s.name, Labels.Label(oldStatus), Labels.Label(newStatus)), sendOk)
  }

  lemma StatusChangeSpec(services: map<Id, Service>, users: seq<User>, serviceId: Id,
                         oldStatus: string, newStatus: string, sendOk: bool)
    requires serviceId in services
    ensures var d := SendStatusChange(services, users, serviceId, oldStatus, newStatus, sendOk);
      Audience(d, users, services[serviceId].organizationId, StatusChanges) &&
      (d.Attempted? ==>
        d.email.subject == "Service Status Change: " + services[serviceId].name &&
        d.email.body.StatusChange? &&
        d.email.body.oldLabel == Labels.Label(oldStatus) && '_' !in d.email.body.oldLabel &&
        d.email.body.newLabel == Labels.Label(newStatus) && '_' !in d.email.body.newLabel)
  {
    var s := services[serviceId];
    SendAudience(users, s.organizationId, StatusChanges, "Service Status Change: " + s.name,
                 StatusChange(s.name, Labels.Label(oldStatus), Labels.Label(newStatus)), sendOk);
    Labels.LabelShape(oldStatus);
    Labels.LabelShape(newStatus);
  }

  function SendNewIncident(incidents: map<Id, Incident>, users: seq<User>, incidentId: Id, sendOk: bool): (d: Dispatch)
    ensures d == Skipped(EntityMissing) <==> incidentId !in incidents
  {
    if incidentId !in incidents then Skipped(EntityMissing)
    else
      var i := incidents[incidentId];
      Send(Recipients(users, i.organizationId, NewIncidents), "New Incident: " + i.title,
           NewIncident(i.title, i.description, i.serviceIds), sendOk)
  }

  lemma NewIncidentSpec(incidents: map<Id, Incident>, users: seq<User>, incidentId: Id, sendOk: bool)
    requires incidentId in incidents
    ensures var d := SendNewIncident(incidents, users, incidentId, sendOk);
      var i := incidents[incidentId];
      Audience(d, users, i.organizationId, NewIncidents) &&
      (d.Attempted? ==>
        d.email.subject == "New Incident: " + i.title &&
        d.email.body == NewIncident(i.title, i.description, i.serviceIds))
  {
    var i := incidents[incidentId];
    SendAudience(users, i.organizationId, NewIncidents, "New Incident: " + i.title,
                 NewIncident(i.title, i.description, i.serviceIds), sendOk);
  }

  /** An update whose incident is gone is skipped like a missing update. */
  function SendIncidentUpdate(updates: map<Id, Update>, incidents: map<Id, Incident>, users: seq<User>,
                              updateId: Id, sendOk: bool): (d: Dispatch)
    ensures d == Skipped(EntityMissing) <==>
      updateId !in updates || updates[updateId].incidentId !in incidents
  {
    if updateId !in updates || updates[updateId].incidentId !in incidents then Skipped(EntityMissing)
    else
      var u := updates[updateId];
      var i := incidents[u.incidentId];
      Send(Recipients(users, i.organizationId, IncidentUpdates), "Incident Update: " + i.title,
           IncidentUpdate(i.title, u.message), sendOk)
  }

  lemma IncidentUpdateSpec(updates: map<Id, Update>, incidents: map<Id, Incident>, users: seq<User>,
                           updateId: Id, sendOk: bool)
    requires updateId in updates && updates[updateId].incidentId in incidents
    ensures var d := SendIncidentUpdate(updates, incidents, users, updateId, sendOk);
      var u := updates[updateId];
      var i := incidents[u.incidentId];
      Audience(d, users, i.organizationId, IncidentUpdates) &&
      (d.Attempted? ==>
        d.email.subject == "Incident Update: " + i.title &&
        d.email.body == IncidentUpdate(i.title, u.message))
  {
    var u := updates[updateId];
    var i := incidents[u.incidentId];
    SendAudience(users, i.organizationId, IncidentUpdates, "Incident Update: " + i.title,
                 IncidentUpdate(i.title, u.message), sendOk);
  }

  function SendIncidentResolved(incidents: map<Id, Incident>, users: seq<User>, incidentId: Id, sendOk: bool): (d: Dispatch)
    ensures d == Skipped(EntityMissing) <==> incidentId !in incidents
  {
    if incidentId !in incidents then Skipped(EntityMissing)
    else
      var i := incidents[incidentId];
      Send(Recipients(users, i.organizationId, IncidentResolved), "Incident Resolved: " + i.title,
           IncidentSolved(i.title), sendOk)
  }

  lemma IncidentResolvedSpec(incidents: map<Id, Incident>, users: seq<User>, incidentId: Id, sendOk: bool)
    requires incidentId in incidents
    ensures var d := SendIncidentResolved(incidents, users, incidentId, sendOk);
      var i := incidents[incidentId];
      Audience(d, users, i.organizationId, IncidentResolved) &&
      (d.Attempted? ==>
        d.email.subject == "Incident Resolved: " + i.title &&
        d.email.body == IncidentSolved(i.title))
  {
    var i := incidents[incidentId];
    SendAudience(users, i.organizationId, IncidentResolved, "Incident Resolved: " + i.title,
                 IncidentSolved(i.title), sendOk);
  }
}
