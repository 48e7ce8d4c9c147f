/** The relational store behind the service, held in memory: the reference
    tables the engine only reads (business hours, store time zones), the task
    table keyed by its unique report id, and the append-only report entries. */
module Database {

  import opened Models

  /** The outcome of a query: its rows, or the database error it raised. */
  datatype Query<T> = Rows(rows: T) | DbError

  /** The business-hour query for one store. A store in `faulty` stands for a
      store whose query raises a database error. */
  function MenuHoursQuery(menuHours: seq<MenuHours>, faulty: set<int>, storeId: int): (q: Query<seq<MenuHours>>)
    ensures q.DbError? <==> storeId in faulty
    ensures q.Rows? ==> forall row :: row in q.rows <==> row in menuHours && row.storeId == storeId
  {
    if storeId in faulty then DbError else Rows(HoursOfStore(menuHours, storeId))
  }

  /** A query that succeeds returns every row of the store as many times as
      the table holds it, and no row of another store. */
  lemma MenuHoursQueryCounts(menuHours: seq<MenuHours>, faulty: set<int>, storeId: int)
    ensures var q := MenuHoursQuery(menuHours, faulty, storeId);
            q.Rows? ==> forall row :: multiset(q.rows)[row] == if row.storeId == storeId then multiset(menuHours)[row] else 0
  {
    HoursOfStoreCounts(menuHours, storeId);
  }

  class Db {
    const menuHours: seq<MenuHours>
    const timeZones: seq<TimeZone>
    const faultyStores: set<int>

    /** ReportTask rows: report_id is unique, so the table is a map from it to the status. */
    var tasks: map<string, string>
    /** ReportEntry rows in insertion order. */
    var entries: seq<ReportEntry>

    /** Every task status is one the service writes. */
    ghost predicate Valid()
      reads this
    {
      forall id :: id in tasks ==> tasks[id] == Running || tasks[id] == Complete
    }

    constructor (menuHours: seq<MenuHours>, timeZones: seq<TimeZone>, faultyStores: set<int>)
      ensures Valid()
      ensures this.menuHours == menuHours && this.timeZones == timeZones && this.faultyStores == faultyStores
      ensures tasks == map[] && entries == []
    {
      this.menuHours := menuHours;
      this.timeZones := timeZones;
      this.faultyStores := faultyStores;
      tasks := map[];
      entries := [];
    }

    function QueryMenuHours(storeId: int): Query<seq<MenuHours>> {
      MenuHoursQuery(menuHours, faultyStores, storeId)
    }

    /** `session.add(ReportTask(...))` and commit: refused (the unique
        constraint on report_id) when a task with that id exists. */
    method AddTask(reportId: string, status: string) returns (ok: bool)
      requires Valid()
      requires status == Running || status == Complete
      modifies this
      ensures Valid()
      ensures ok <==> reportId !in old(tasks)
      ensures tasks == if ok then old(tasks)[reportId := status] else old(tasks)
      ensures entries == old(entries)
    {
      ok := reportId !in tasks;
      if ok {
        tasks := tasks[reportId := status];
      }
    }

    /** `session.add(ReportEntry(...))` and commit. */
    method AddEntry(e: ReportEntry)
      modifies this
      ensures entries == old(entries) + [e]
      ensures tasks == old(tasks)
    {
      entries := entries + [e];
    }
  }
}
