/** The relational store as one object whose tables are Dafny maps (keyed by
    id) and sequences (in insertion order).  Handlers and the monitor change
    it in place. */
module Store {
  import opened Entities

  class Database {
    var services: map<Id, Service>
    var incidents: map<Id, Incident>
    var updates: map<Id, Update>
    var users: seq<User>
    var checks: seq<Check>
    var metrics: seq<Metric>

    constructor ()
      ensures services == map[] && incidents == map[] && updates == map[]
      ensures users == [] && checks == [] && metrics == []
    {
      services, incidents, updates := map[], map[], map[];
      users, checks, metrics := [], [], [];
    }
  }
}
