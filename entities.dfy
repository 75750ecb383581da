/** The rows of the status page's tables, as values.  Every table of the
    relational store is modelled by a Dafny map or sequence of these rows
    (see module Store); identifiers are plain strings. */
module Entities {

  datatype Option<T> = None | Some(value: T)

  datatype Result<T, E> = Ok(value: T) | Err(error: E)

  type Id = string

  /** Python truthiness of an optional string: present and not empty. */
  predicate Truthy(o: Option<string>) {
    o.Some? && o.value != ""
  }

  /** The five service statuses that ServiceCreate accepts. */
  const ServiceStatuses: seq<string> :=
    ["operational", "degraded", "partial_outage", "major_outage", "maintenance"]

  /** A monitored service.  The status is kept as a string: only the
      creation request validates it, and other paths store any string. */
  datatype Service = Service(
    name: string,
    description: Option<string>,
    status: string,
    endpoint: Option<string>,
    organizationId: Id)

  datatype Incident = Incident(
    title: string,
    description: string,
    status: string,
    serviceIds: set<Id>,
    organizationId: Id)

  /** A narrative update attached to an incident. */
  datatype Update = Update(message: string, incidentId: Id)

  datatype Preferences = Preferences(
    serviceStatusChanges: bool,
    newIncidents: bool,
    incidentUpdates: bool,
    incidentResolved: bool)

  datatype User = User(
    email: string,
    organizationId: Id,
    preferences: Option<Preferences>)

  /** One uptime check: `up` stands for the stored status "up" (false for
      "down"); the timestamp is in seconds on the server's local clock. */
  datatype Check = Check(
    serviceId: Id,
    up: bool,
    responseTime: Option<int>,
    timestamp: int)

  datatype Period = Daily | Weekly | Monthly

  /** One rollup row. */
  datatype Metric = Metric(
    serviceId: Id,
    period: Period,
    startDate: int,
    endDate: int,
    uptime: real,
    avgResponseTime: Option<int>,
    checksCount: nat,
    downtimeMinutes: int)
}
