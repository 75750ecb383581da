# Status page backend core, modelled in Dafny

This project models the core of a status-page backend. Organizations register
services and open incidents against them. An uptime monitor probes each
service's endpoint once a minute, records a check and adjusts the service's
status. At midnight it rolls the checks up into daily, weekly and monthly
metric rows. Users receive e-mail notifications according to their
preferences. Browsers get live updates over WebSockets.

The model is split by module:

- `Entities` (entities.dfy) holds the database rows and Python truthiness of
  optional strings.
- `Store` (store.dfy) is the database as a class with one field per table.
- `Uptime` (uptime.dfy) holds the pure rules of the monitor:
  - classifying a probe;
  - the automatic status;
  - the rollup window;
  - the window statistics;
  - the metric upsert;
  - the clock rule that chooses the rollups.
- `Monitor` (monitor.dfy) is the monitor itself, the class `UptimeService`.
  Its probing round and its rollups are loops over the store, proved against
  folds of the `Uptime` rules.
- `Connections` (connections.dfy) is the WebSocket registry
  `ConnectionManager` and its broadcast.
- `Notifications` (notifications.dfy) holds the four e-mail notifications and
  who they reach.
- `Labels` (labels.dfy) is the status label of the status-change e-mail:
  underscores become spaces, then the words are title-cased.
- `Sync` (sync.dfy) is what the user-sync endpoint derives from the identity
  provider's record: the address, the display name, and the workspace names.
- `Api` (api.dfy) holds the handlers:
  - the status validator;
  - the service update;
  - incident creation and update, with the status propagation to linked
    services;
  - the current-uptime report;
  - the manual check.

Effects that the model does not perform are parameters:

- a probe's outcome, and a failure while writing a check or a status, are
  `Monitor.Attempt` values;
- the sockets whose send raises are the set `failing`;
- the mail provider's verdict is `sendOk`;
- the clock is `now` (seconds) and `t` (the wall clock);
- the fresh id of a new incident is `iid`.

The handlers return the notifications they ask for as `Api.Notice` values, in
order. Module `Notifications` models what each notification then does.

## Model

| member | source | states |
|---|---|---|
| Uptime.Classify | backend/uptime_service.py:74-85 | A probe is up exactly when the endpoint answered with a code below 400. The response time is the elapsed milliseconds, and it is absent exactly when the request raised. |
| Uptime.NextStatus | backend/uptime_service.py:52-69 | A down check turns "operational" into "partial_outage" and leaves any other status alone. An up check turns any other status into "operational" unless an unresolved incident lists the service. |
| Uptime.NextStatusKeepsServiceStatuses | backend/uptime_service.py:52-69 | Starting from one of the five service statuses, the automatic status is again one of them. |
| Uptime.NextStatusIdempotent | backend/uptime_service.py:52-69 | A second check with the same outcome changes the status no further. |
| Uptime.Midnight | backend/uptime_service.py:108 | The start of `now`'s day: at most `now`, less than a day before it, and a multiple of 86400. |
| Uptime.WindowChecksMembers | backend/uptime_service.py:117-125 | The window holds exactly the checks of the service with start <= timestamp < end. It never has more rows than the table. |
| Uptime.WindowChecksMultiset | backend/uptime_service.py:117-125 | Each matching row appears in the window exactly as many times as in the table. No other row appears. |
| Uptime.WindowChecksAppend | backend/uptime_service.py:117-125 | The window of two tables joined is the first table's window followed by the second's. |
| Uptime.WindowChecksSingle | backend/uptime_service.py:117-125 | A single row is kept exactly when it matches. With Uptime.WindowChecksAppend this fixes the window's order. |
| Uptime.WindowChecks | backend/uptime_service.py:117-125 | The query for a service's checks in [start, end), in table order with every matching row kept. Its contract is Uptime.WindowChecksMembers, Uptime.WindowChecksMultiset, Uptime.WindowChecksAppend, Uptime.WindowChecksSingle, Uptime.WindowMonotone and Uptime.WindowIgnoresLaterChecks. |
| Uptime.WindowMonotone | backend/uptime_service.py:117-125 | A window inside another never holds more checks. |
| Uptime.WindowIgnoresLaterChecks | backend/uptime_service.py:117-125 | Appending checks stamped at or after the window's end leaves the window unchanged. |
| Uptime.WindowEmpty | backend/uptime_service.py:117-128 | A window with no matching check is empty. |
| Uptime.UpCountSpec | backend/uptime_service.py:131-132 | The up count equals the number of checks exactly when every check is up. It is 0 exactly when none is. |
| Uptime.ResponseTimesSpec | backend/uptime_service.py:136 | There are no response times exactly when no check has one, and never more than there are checks. |
| Uptime.UptimePercentageSpec | backend/uptime_service.py:133 | The uptime is between 0 and 100. It is 100 exactly when every check is up, and 0 exactly when none is. |
| Uptime.UptimePercentage | backend/uptime_service.py:131-133 | The uptime percentage 100 * up / total, as an exact real. Its contract is Uptime.UptimePercentageSpec. |
| Uptime.AverageResponseTimeSpec | backend/uptime_service.py:136-137 | The average is absent exactly when no check has a response time. Otherwise it is the floor of the mean of the present times. |
| Uptime.AverageResponseTime | backend/uptime_service.py:136-137 | The floored mean of the present response times, absent when there are none. Its contract is Uptime.AverageResponseTimeSpec. |
| Uptime.DowntimeSpec | backend/uptime_service.py:141-142 | Downtime is between 0 and the window's minutes, and is the floor of the down checks' share of the window. It is 0 when every check is up and the whole window when none is. |
| Uptime.Downtime | backend/uptime_service.py:141-142 | Minutes of downtime: the down checks' share of the window, truncated. Its contract is Uptime.DowntimeSpec. |
| Uptime.ComputeMetric | backend/uptime_service.py:131-142 | The row carries the service, the period, the window bounds and the number of checks. |
| Uptime.ComputeMetricSpec | backend/uptime_service.py:131-142 | The row's uptime, average response time and downtime satisfy the bounds and the all-up / none-up cases above. |
| Uptime.FindMetric | backend/uptime_service.py:145-152 | `find_first` returns the first row with the key (service, period, start, end), or none when no row has it. |
| Uptime.FindFirst | backend/uptime_service.py:145-152 | The first matching index is the answer of the lookup. |
| Uptime.UpsertSpec | backend/uptime_service.py:144-176 | After the upsert the table answers the new row for its key. The table grows by one row exactly when the key was new. Rows with other keys keep their place, and unique keys stay unique. |
| Uptime.Upsert | backend/uptime_service.py:144-176 | Find the first row with the key, then update it in place or append a new row. Its contract is Uptime.UpsertSpec. |
| Uptime.UpsertOfHeldRow | backend/uptime_service.py:144-176 | Upserting a row the table already answers for its key changes nothing. |
| Uptime.HoldsAcrossUpsert | backend/uptime_service.py:144-176 | Upserting a row with another key does not disturb a held row. |
| Uptime.UpsertAllHolds | backend/uptime_service.py:144-176 | After upserting rows with distinct keys, the table answers each of them. |
| Uptime.UpsertAllOfHeldRows | backend/uptime_service.py:144-176 | Upserting rows the table already holds changes nothing. |
| Uptime.UpsertAllIdempotent | backend/uptime_service.py:144-176 | Upserting the same rows with distinct keys a second time changes nothing. |
| Uptime.UpsertAllKeepsUniqueKeys | backend/uptime_service.py:144-176 | A table without duplicate keys keeps that shape under any sequence of upserts. |
| Uptime.UpsertAllSnoc | backend/uptime_service.py:111-176 | Proof step of the rollup loop. Upserting a list that ends in one more row is one more upsert. |
| Uptime.RollupSpec | backend/uptime_service.py:117-142 | A service gets a row exactly when some check of it lies in the window. The row is keyed by the service and the window and counts the window's checks. |
| Uptime.Rollup | backend/uptime_service.py:117-142 | One service's rollup: no row for an empty window, otherwise the row computed from the window's checks. Its contract is Uptime.RollupSpec and Uptime.ComputeMetricSpec. |
| Uptime.RollupListStep | backend/uptime_service.py:111-176 | Proof step of the rollup loop. One more listed service adds exactly its own rollup at the end. |
| Uptime.PresentSound | backend/uptime_service.py:127-128 | Every row that is kept comes from an entry of the list. |
| Uptime.PresentComplete | backend/uptime_service.py:127-128 | Every entry that holds a row is kept. |
| Uptime.PresentUniqueKeys | backend/uptime_service.py:111-176 | Rows of distinct services have distinct keys. |
| Uptime.RollupsSound | backend/uptime_service.py:111-176 | Every rollup row is the rollup of a listed service. |
| Uptime.RollupsComplete | backend/uptime_service.py:111-176 | Every listed service whose window holds a check gets its row. |
| Uptime.RollupsUniqueKeys | backend/uptime_service.py:111-176 | The rollups of distinct services have distinct keys. |
| Uptime.PeriodRollupsWindow | backend/uptime_service.py:108-109 | A period's rollup covers the `days` days before today's midnight. |
| Uptime.StashAllSnoc | backend/uptime_service.py:111-176 | Proof step of the rollup loop. Stashing one more entry is one more stash step. |
| Uptime.StashAllIsUpsertAll | backend/uptime_service.py:111-176 | Upserting entry by entry, skipping empty windows, equals upserting the list of present rows. |
| Uptime.DaysInMonth | backend/uptime_service.py:100-104 | A month has 28 to 31 days, and February has 29 exactly in a Gregorian leap year. |
| Uptime.PreviousMonthLength | backend/uptime_service.py:100-104 | The day before the first of the month is the length of the previous month: 31 in January, otherwise the length of month - 1 of the same year. |
| Uptime.PreviousMonthLengthExamples | backend/uptime_service.py:100-104 | March after a leap February gives 29, including 2000; 1900 and 2023 give 28. |
| Uptime.ScheduledRollups | backend/uptime_service.py:87-104 | The daily rollup runs exactly at midnight. The weekly one (7 days) runs exactly at a Sunday midnight. The monthly one, over the previous month's length, runs exactly at midnight of the first of the month. Nothing else runs. |
| Uptime.ScheduleAtSixtySeconds | backend/uptime_service.py:14 | With the 60-second interval, "midnight" is exactly the minute 00:00. |
| Monitor.StatusWriteIsNextStatus | backend/uptime_service.py:35-69 | An iteration writes a status exactly when the service has an endpoint, nothing raised and the automatic status differs from the stored one. What it writes is the automatic status. |
| Monitor.StatusWrite | backend/uptime_service.py:35-69 | The status one iteration writes, if any. Its contract is Monitor.StatusWriteIsNextStatus. |
| Monitor.CheckedService | backend/uptime_service.py:33-72 | Only the status may change. It does not change without an endpoint or after a fault; otherwise it becomes the automatic status. |
| Monitor.CheckedServicesKeys | backend/uptime_service.py:28-72 | A probing round adds no service and removes none. |
| Monitor.CheckedServicesOthers | backend/uptime_service.py:28-72 | A service the round does not list keeps its row. |
| Monitor.CheckedServicesAt | backend/uptime_service.py:28-72 | Each listed service ends the round as its own iteration left it. |
| Monitor.CheckedServicesStep | backend/uptime_service.py:33-72 | Proof step of the check loop. One more service extends the round by exactly its own status write. |
| Monitor.CheckedServices | backend/uptime_service.py:28-72 | The service table after a probing round over the fetched rows. Its contract is Monitor.CheckedServicesKeys, Monitor.CheckedServicesOthers and Monitor.CheckedServicesAt. |
| Monitor.RecordedCheck | backend/uptime_service.py:35-49 | One check row is written exactly when the service has an endpoint and writing the row does not raise. It carries the probe's verdict, response time and clock reading. |
| Monitor.RecordedChecks | backend/uptime_service.py:28-72 | A round writes no more check rows than it lists services. |
| Monitor.RecordedChecksPerService | backend/uptime_service.py:33-72 | A round writes at most one check row for each listing of a service, and none for a service it does not list. |
| Monitor.RecordedChecksRows | backend/uptime_service.py:28-72 | Every check row of a round belongs to a listed service with an endpoint and carries that service's probe result and clock reading. |
| Monitor.RecordedChecksStep | backend/uptime_service.py:33-72 | Proof step of the check loop. One more service appends exactly its own check rows. |
| Monitor.RunScheduleStep | backend/uptime_service.py:87-104 | Proof step of the schedule loop. One more scheduled rollup is one more period upsert. |
| Monitor.UptimeService.constructor | backend/uptime_service.py:14 | The check interval is 60 seconds. |
| Monitor.UptimeService.CheckService | backend/uptime_service.py:33-72 | One iteration appends its check row and writes the status chosen by StatusWrite from the fetched row. No other table changes. |
| Monitor.UptimeService.CheckAllServices | backend/uptime_service.py:28-72 | The service table becomes the fold of the round over the fetched rows, and the check table gains exactly the round's rows in service order. No other table changes. |
| Monitor.UptimeService.RollUpService | backend/uptime_service.py:117-176 | One service's rollup upserts its row when its window holds a check, and is a no-op otherwise. |
| Monitor.UptimeService.CalculatePeriodMetrics | backend/uptime_service.py:106-176 | The metric table becomes the old table with the period's rollups of the listed services upserted in order. Only the metric table changes. |
| Monitor.UptimeService.CalculateMetrics | backend/uptime_service.py:87-104 | The metric table is the result of running exactly the rollups scheduled for the wall clock, in order. |
| Monitor.RecomputeIsIdempotent | backend/uptime_service.py:144-176 | Recomputing a rollup of distinct services over unchanged checks leaves the table as the first computation left it. |
| Connections.RemoveFirst | backend/main.py:54-55 | Removing shortens the list by one exactly when the socket was registered. |
| Connections.FirstIndex | backend/main.py:54-55 | The position of the first occurrence of the socket. |
| Connections.RemoveFirstSpec | backend/main.py:54-55 | Removing cuts out exactly the first occurrence. A list without the socket is left as it was. |
| Connections.RemoveFirstMultiset | backend/main.py:54-55 | Removing takes exactly one copy of the socket out of the registry. |
| Connections.RemoveAfterAppend | backend/main.py:50-55 | Disconnecting a socket that was just connected for the first time restores the registry. |
| Connections.DeliverSent | backend/main.py:57-59 | A socket receives the message once per occurrence in the list, after what it already had. A socket not in the list receives nothing. |
| Connections.DeliverOnce | backend/main.py:57-59 | When every socket is registered once, each one receives exactly one copy. |
| Connections.Reached | backend/main.py:57-59 | The sockets reached are the prefix of the registry before the first failing send. |
| Connections.ReachedIs | backend/main.py:57-59 | The reach is determined by the position of the first failing send. |
| Connections.ReachedAll | backend/main.py:57-59 | Without a failing send every registered socket is reached, with no filter. |
| Connections.ConnectionManager.constructor | backend/main.py:46-47 | The registry starts empty. |
| Connections.ConnectionManager.Connect | backend/main.py:50-52 | The socket is registered at the end. Nothing is sent. |
| Connections.ConnectionManager.Disconnect | backend/main.py:54-55 | It succeeds exactly when the socket was registered, and then removes its first occurrence. |
| Connections.ConnectionManager.Broadcast | backend/main.py:57-59 | The message goes to the registered sockets in order up to the first failing send. The broadcast succeeds exactly when no registered send fails. The registry is unchanged. |
| Notifications.RecipientsMembers | backend/notification_service.py:18-24 | An address is a recipient exactly when some user of the organization with that address opted in to that kind. |
| Notifications.RecipientsEmpty | backend/notification_service.py:39-46 | Nobody is notified exactly when no user of the organization opted in. |
| Notifications.RecipientsSubsequence | backend/notification_service.py:39-42 | The recipients are the organization's addresses in table order, some left out. |
| Notifications.RecipientsAppend | backend/notification_service.py:39-42 | The recipients of two user tables joined are the first table's followed by the second's. |
| Notifications.RecipientsSingle | backend/notification_service.py:39-42 | A single user contributes their address exactly when they belong to the organization and opted in. With Notifications.RecipientsAppend this fixes the list, order and repetitions included. |
| Notifications.RecipientsCount | backend/notification_service.py:39-42 | Each address is listed once per opted-in user of the organization who has it. |
| Notifications.Recipients | backend/notification_service.py:36-42 | The addresses of the organization's users who opted in to the kind, in table order, one per such user. Its contract is Notifications.RecipientsMembers, Notifications.RecipientsEmpty, Notifications.RecipientsSubsequence, Notifications.RecipientsAppend, Notifications.RecipientsSingle and Notifications.RecipientsCount. |
| Notifications.Send | backend/notification_service.py:45-63 | An empty list skips the send. Otherwise one e-mail goes to the whole list, and the provider's verdict is only reported. |
| Notifications.SendAudience | backend/notification_service.py:39-63 | A found entity's notification reaches nobody when nobody opted in. Otherwise it is one e-mail to the recipient list. That list holds each address once per opted-in user of the organization with it, in user order, and nothing else. |
| Notifications.SendStatusChange | backend/notification_service.py:26-34 | It skips exactly when the service does not exist. |
| Notifications.StatusChangeSpec | backend/notification_service.py:26-63 | The audience as in Notifications.SendAudience (the exact recipient list, one address per opted-in user), the subject "Service Status Change: name", and both statuses as labels without underscores. |
| Notifications.SendNewIncident | backend/notification_service.py:65-75 | It skips exactly when the incident does not exist. |
| Notifications.NewIncidentSpec | backend/notification_service.py:65-101 | The audience of the incident's organization as in Notifications.SendAudience (the exact recipient list, one address per opted-in user), the subject "New Incident: title", and the incident's title, description and services. |
| Notifications.SendIncidentUpdate | backend/notification_service.py:103-111 | It skips exactly when the update or its incident does not exist. |
| Notifications.IncidentUpdateSpec | backend/notification_service.py:103-138 | The audience of the incident's organization as in Notifications.SendAudience (the exact recipient list, one address per opted-in user), the subject "Incident Update: title", and the update's message. |
| Notifications.SendIncidentResolved | backend/notification_service.py:140-148 | It skips exactly when the incident does not exist. |
| Notifications.IncidentResolvedSpec | backend/notification_service.py:140-174 | The audience of the incident's organization as in Notifications.SendAudience (the exact recipient list, one address per opted-in user), and the subject "Incident Resolved: title". |
| Labels.ReplaceUnderscores | backend/templates/email_templates.py:12-13 | Every underscore becomes a space and every other character is kept. |
| Labels.CaseOfCase | backend/templates/email_templates.py:12-13 | Changing the case of a letter twice gives the case of the last change. |
| Labels.TitleFromAt | backend/templates/email_templates.py:12-13 | The title-casing loop, position by position. |
| Labels.TitleAt | backend/templates/email_templates.py:12-13 | A letter is upper-cased exactly when it starts the text or follows a non-letter. Other letters are lower-cased; the rest is kept. |
| Labels.TitleKeepsLetters | backend/templates/email_templates.py:12-13 | Title-casing keeps which positions hold letters. |
| Labels.TitleCaseAt | backend/templates/email_templates.py:12-13 | In the result, a letter is upper case exactly when it is first or follows a non-letter, and lower case otherwise. |
| Labels.TitleCase | backend/templates/email_templates.py:12-13 | The same, for every position. |
| Labels.TitleIdempotent | backend/templates/email_templates.py:12-13 | Title-casing twice is title-casing once. |
| Labels.LabelAt | backend/templates/email_templates.py:12-13 | The label, position by position, in terms of the status. |
| Labels.LabelShape | backend/templates/email_templates.py:12-13 | No underscore survives, each underscore became a space, and the letters are cased as title-casing promises. |
| Labels.LabelIdempotent | backend/templates/email_templates.py:12-13 | Applying the label twice is applying it once. |
| Labels.LabelPartialOutage | backend/templates/email_templates.py:12-13 | "partial_outage" is shown as "Partial Outage". |
| Labels.LabelOperational | backend/templates/email_templates.py:12-13 | "operational" is shown as "Operational". |
| Labels.Label | backend/templates/email_templates.py:12-13 | `status.replace('_', ' ').title()`. Its contract is Labels.LabelAt, Labels.LabelShape and Labels.LabelIdempotent. |
| Sync.FindById | backend/main.py:1000-1005 | The first address with the primary id, or none when no address has it. |
| Sync.FindVerified | backend/main.py:1007-1012 | The first verified address, or none when none is verified. |
| Sync.SelectEmail | backend/main.py:1000-1019 | The choice fails exactly when the record has no address, because indexing the empty list raises. Otherwise the chosen address is one of the record's. |
| Sync.SelectEmailPriority | backend/main.py:1000-1019 | The choice is the first address with the primary id when it is listed. Otherwise it is the first verified address when there is one. Otherwise it is the first address. |
| Sync.StripLeft | backend/main.py:1023 | Left stripping removes a prefix made only of whitespace, and the rest does not start with whitespace. |
| Sync.StripRight | backend/main.py:1023 | Right stripping removes a suffix made only of whitespace, and the rest does not end with whitespace. |
| Sync.StripSpec | backend/main.py:1023 | The strip is a contiguous middle part. It neither starts nor ends with whitespace, and only whitespace is dropped around it. |
| Sync.StripKeeps | backend/main.py:1023 | A text that neither starts nor ends with whitespace is its own strip. |
| Sync.StripAllSpace | backend/main.py:1023 | A text made only of whitespace strips to the empty text. |
| Sync.Strip | backend/main.py:1023 | `str.strip()` over the whitespace of the model. Its contract is Sync.StripSpec, Sync.StripKeeps and Sync.StripAllSpace. |
| Sync.DisplayName | backend/main.py:1021-1027 | There is no name exactly when there is neither a first name nor a username. |
| Sync.DisplayNameSources | backend/main.py:1021-1027 | The name comes from "first last" when both names are given, else from the first name, else from the username. |
| Sync.DisplayNameCanBeEmpty | backend/main.py:1022-1023 | Any first and last name made only of whitespace give the empty name. |
| Sync.LocalPart | backend/main.py:1051 | The part before the first '@': a prefix of the address that contains no '@' and is followed by '@' or by the end. |
| Sync.PersonalOrgName | backend/main.py:1051 | The workspace is named after the user's name when there is one, else after the local part of the address. |
| Sync.PersonalOrgId | backend/main.py:1052 | The key is "personal_" followed by the user id. |
| Sync.PersonalOrgIdInjective | backend/main.py:1052 | Distinct users get distinct workspace keys. |
| Sync.PersonalWorkspaceFromRecord | backend/main.py:1000-1051 | A user without a first name or username gets a workspace named after the local part of the chosen address. |
| Sync.MembershipOrgNameAsWritten | backend/main.py:1124 | As written: a user without a name always gets "local part's Organization". |
| Sync.MembershipOrgNameAsWrittenLosesName | backend/main.py:1124 | For the provider name "Acme", no user name and the address "bob@acme.io", the code as written gives "bob's Organization" where "Acme" was intended. |
| Sync.MembershipOrgName | backend/main.py:1124 | Corrected: the provider's name when it has one, otherwise the fallback built from the user's name or the local part. |
| Sync.MembershipOrgNameReadings | backend/main.py:1124 | The two readings agree exactly when the user has a name or the provider has none. |
| Api.ValidateStatus | backend/main.py:219-224 | A status is accepted exactly when it is one of the five service statuses. It is returned unchanged, and anything else is rejected. |
| Api.ValidateStatusExamples | backend/main.py:219-224 | The five statuses pass. "resolved", "investigating", "" and "Operational" are rejected. |
| Api.UpdatedData | backend/main.py:631 | The update's field map holds exactly the fields that are not None. |
| Api.ApplyUpdateSpec | backend/main.py:226-230 | Each given field is written and each absent one is kept. The organization never changes. Applying an update twice is applying it once, and an empty update changes nothing. |
| Api.ApplyData | backend/main.py:631-636 | Writing the update's field map into the service row. Its contract is Api.ApplyUpdateSpec. |
| Api.ServiceUpdateAnnouncements | backend/main.py:639-654 | A notification never comes without a broadcast. A broadcast comes alone exactly when the given status equals the old non-empty one. An empty status is written but announced by neither. |
| Api.PropagationStep | backend/main.py:684-696 | Proof step of the propagation loop. One more listed service is one more propagation step. |
| Api.PropagatedAt | backend/main.py:684-696 | Every listed service that exists ends with the incident's status, its other fields kept. Every other service is untouched, and no service appears or disappears. |
| Api.PropagationNoticesSound | backend/main.py:684-696 | Each notice names a listed, existing service whose status differed, and carries that original status as the old one. |
| Api.PropagationNoticeFor | backend/main.py:684-696 | A service is notified about exactly when it is listed, exists and had another status. |
| Api.PropagationNoticesOnce | backend/main.py:684-696 | No service is notified about twice, even when it is listed twice. |
| Api.Propagated | backend/main.py:684-696 | The service table after the propagation loop. Its contract is Api.PropagatedAt. |
| Api.PropagationNotices | backend/main.py:684-696 | The status-change notices of the propagation loop, in order. Its contract is Api.PropagationNoticesSound, Api.PropagationNoticeFor and Api.PropagationNoticesOnce. |
| Api.ApplyIncidentUpdate | backend/main.py:739-765 | The organization of an incident never changes. Its other fields are stated by Api.ApplyIncidentUpdateSpec. |
| Api.ApplyIncidentUpdateSpec | backend/main.py:739-765 | Each given field is written and each absent one is kept. A non-empty list replaces the links by exactly the services it names. An absent or empty list keeps them. Applying the same update twice is the same as applying it once. |
| Api.ResolvedFiresOnce | backend/main.py:784-785 | The resolved notification fires exactly on a transition into "resolved". The update then leaves the incident resolved, so no later update fires it again. |
| Api.EmptyServiceListIgnored | backend/main.py:756-765 | An empty list of services does not replace the links. |
| Api.RecentChecksMembers | backend/main.py:1290-1297 | A check is recent exactly when it belongs to the service and is not older than a day. Later checks are not cut off. |
| Api.RecentChecksMultiset | backend/main.py:1290-1297 | Each recent check appears as many times as in the table. No other check appears. |
| Api.RecentChecksAppend | backend/main.py:1290-1297 | The recent checks of two tables joined are the first table's followed by the second's. |
| Api.RecentChecksSingle | backend/main.py:1290-1297 | A single check is kept exactly when it belongs to the service and is recent. With Api.RecentChecksAppend this fixes the order. |
| Api.RecentChecksLast | backend/main.py:1290-1297 | The last recent check is the table's last row of the service that is not older than the bound. |
| Api.RecentChecks | backend/main.py:1290-1297 | The service's checks at or after one day before now, in table order with every matching row kept. Its contract is Api.RecentChecksMembers, Api.RecentChecksMultiset, Api.RecentChecksAppend, Api.RecentChecksSingle and Api.RecentChecksLast. |
| Api.CurrentUptime | backend/main.py:1283-1287 | The report fails, with 404, exactly when the service does not exist. |
| Api.CurrentUptimeLatest | backend/main.py:1290-1312 | The report's lastCheck and currentStatus are the time and verdict of the table's last row of the service from the past day. |
| Api.CurrentUptimeSpec | backend/main.py:1283-1312 | There is no figure exactly when no check is recent. Otherwise the uptime is a percentage, 100 exactly when every recent check is up and 0 exactly when none is, and the last recent check gives the current status. |
| Api.TriggerServiceCheck | backend/main.py:1314-1328 | 404 for an unknown service, 400 for one without a non-empty endpoint, and otherwise the endpoint to probe. |
| Api.Handlers.constructor | backend/main.py:61-64 | The handlers use the given store and connection registry, the module-level globals of the application. |
| Api.Handlers.PropagateStatus | backend/main.py:684-696 | The service table becomes the propagation over the list, the notices are the propagation's notices, and no other table changes. |
| Api.Handlers.UpdateService | backend/main.py:621-655 | 404 with nothing changed for an unknown service. Otherwise the row gets the given fields. A status-change notice is issued exactly when a non-empty status differs from the old one. The row is broadcast exactly when a non-empty status is given, and the request fails only when that broadcast hits a failing send. |
| Api.Handlers.CreateIncident | backend/main.py:667-710 | The incident is stored and its status propagated. The notices are the propagation's followed by the new-incident notice, and the creation is broadcast to the sockets reached. |
| Api.Handlers.UpdateIncident | backend/main.py:736-796 | 404 with nothing changed for an unknown incident. Otherwise the fields are written and a non-empty list replaces the links. A given status is propagated to that list. The resolved notice is issued on the transition into "resolved", and the update is broadcast. |

## Left out

- Persistence is left out: the database client's queries are modelled as operations on in-memory tables. Several queries have no `order_by`: the window query at backend/uptime_service.py:117-125, the recent-checks query at backend/main.py:1290-1297 and the `find_first` lookup at backend/uptime_service.py:145-152. For these the model assumes the database returns rows in insertion order. "In table order", the "first row" of Uptime.FindMetric, and the "table's last row" of Api.RecentChecksLast and Api.CurrentUptimeLatest (`checks[-1]` at backend/main.py:1310-1311) hold only under that assumption.
  - A query's answer, such as the services with a non-null endpoint, is the parameter `ids` of CheckAllServices and CalculatePeriodMetrics.
  - Every listed id is assumed to be a stored service.
- Connecting an incident to an unknown service id makes the database raise. The model does not raise for this.
- Monitor.UptimeService.CalculatePeriodMetrics: a failing database call aborts the remaining services and periods of the rollup, because the source has no try around it. The model has no failing rollup call.
- Each handler is one sequential step. Concurrency between handlers and the monitor is left out, and so are connections that join or leave while a broadcast is iterating.
- The asyncio scheduling loop, its sleep and its exception logging are left out.
- The HTTP probe is left out: the request, its 10-second timeout and the timing are given as `Uptime.ProbeOutcome`.
- The WebSocket transport and the JSON encoding of messages are left out; a message is an `Connections.Event` value.
- The request-model layer is left out: body parsing, authentication dependencies and the HTTP error rendering are not modelled and become `Api.ApiError` values.
- What `get_service_uptime` does is not part of this model.
- The manual check's background probe is left out, because its result is discarded. Api.TriggerServiceCheck returns the endpoint it would probe.
- The mail provider, Jinja template rendering and the organization name in the e-mails are left out. An e-mail is the `Notifications.Email` value with its subject and the fields the template shows.
- Uptime.Downtime: uses exact rational arithmetic and truncates the result. The source computes in floating point and may differ by one minute when a product is not exact.
- Uptime.UptimePercentage: is an exact real, where the source uses a float.
- Clock readings are integer seconds and the calendar is the proleptic Gregorian one; time zones are left out.
  - Monitor.UptimeService.CalculateMetrics: takes the wall clock and the same instant in seconds as parameters and uses that instant for every rollup of the round. The source reads the clock once per rollup.
  - The relation between seconds and the calendar date is not modelled beyond hour and minute.
- Labels.Label: cases only ASCII letters, and a non-ASCII letter does not count as cased, so the letter after it becomes upper case. "éa" gives "éA" in the model, where Python gives "Éa".
- Sync.Strip: strips ASCII whitespace and the separator controls. Python also strips other Unicode spaces.
- ensure_user_synced is only partly modelled.
  - Updating an existing user, creating the user, and looking up or creating organizations through the identity provider are left out.
  - Only the derived values are modelled: the address, the name, and the workspace and organization names and keys.
- The code after trigger_service_check's return is unreachable and is not modelled.
- The new incident's id is chosen by the database. It is the parameter `iid` of Api.Handlers.CreateIncident, which must not name a stored incident.

## Findings

| source | as written | input that shows it | evidently intended | confidence | as-written member | corrected member |
|---|---|---|---|---|---|---|
| backend/main.py:1124 | The conditional expression binds more loosely than `or`, so the provider's organization name is part of the then-branch. A user without a name always gets "local part's Organization". | provider organization name "Acme", no user name, address "bob@acme.io": gives "bob's Organization" | use the provider's name "Acme" whenever it has one, and the fallback built from the user's name or address otherwise | not executed | Sync.MembershipOrgNameAsWritten, Sync.MembershipOrgNameAsWrittenLosesName | Sync.MembershipOrgName |
