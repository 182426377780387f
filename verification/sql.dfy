/**
 The SQL statements the repository and the service send, each as one atomic step on the
 `files` table. Every write is subject to the check constraint `non_negative_links_count`:
 a statement that would leave a row with a negative `links_count` fails as a whole and
 leaves the table as it was.
 */
module Sql {
  import opened Exceptions
  import opened FileModel

  /** PostgreSQL's SQLSTATE for a check-constraint violation. */
  const CheckViolation := "23514"

  /** The name of the constraint `links_count >= 0`. */
  const NonNegativeLinksCount := "non_negative_links_count"

  /** What the server raises when a write would make a count negative. */
  const NegativeCountViolation: Exception := Postgres(CheckViolation, NonNegativeLinksCount)

  /** The result of an `update`: how many rows it touched, the value of a
      `returning links_count` clause (null when no row matched), and the table after it. */
  datatype Updated = Updated(affected: nat, returning: Option<int>, table: Table)

  /** Whether a write leaves `row` within the check constraint. */
  predicate Admits(row: Row) {
    row.linksCount >= 0
  }

  /** `select id from files where hash = @hash` read through `ExecuteScalar`: the id of
      some matching row (which one, when several match, is up to the server), or null. */
  method SelectIdByHash(t: Table, hash: string) returns (r: Option<Guid>)
    ensures r.Some? ==> r.value in IdsWithHash(t, hash)
    ensures r.None? <==> IdsWithHash(t, hash) == {}
  {
    if id :| id in t && t[id].hash == hash {
      r := Some(id);
    } else {
      r := None;
    }
  }

  /** `select ... from files where id = @id` read as a single row or null. */
  function SelectById(t: Table, id: Guid): (r: Option<Row>)
    ensures r.Some? <==> id in t
    ensures r.Some? ==> r.value == t[id]
  {
    if id in t then Some(t[id]) else None
  }

  /** `update files set links_count = links_count + @delta where id = @id returning links_count`. */
  function UpdateLinksCount(t: Table, id: Guid, delta: int): (r: Outcome<Updated>)
    ensures id !in t ==> r == Returned(Updated(0, None, t))
    ensures id in t && t[id].linksCount + delta < 0 ==> r == Threw(NegativeCountViolation)
    ensures id in t && t[id].linksCount + delta >= 0 ==>
              && r.Returned? && r.value.affected == 1
              && r.value.returning == Some(t[id].linksCount + delta)
              && CountShifted(t, r.value.table, id, delta)
  {
    if id !in t then
      Returned(Updated(0, None, t))
    else
      var row := t[id].(linksCount := t[id].linksCount + delta);
      if Admits(row) then Returned(Updated(1, Some(row.linksCount), t[id := row]))
      else Threw(NegativeCountViolation)
  }

  /** `insert into files (...) values (...)`; the id must be new (the primary key). */
  function Insert(t: Table, id: Guid, row: Row): (r: Outcome<Table>)
    requires id !in t
    ensures row.linksCount >= 0 ==> r.Returned? && RowAdded(t, r.value, id, row)
    ensures row.linksCount < 0 ==> r == Threw(NegativeCountViolation)
  {
    if Admits(row) then Returned(t[id := row]) else Threw(NegativeCountViolation)
  }

  /** `delete from files where id = @id returning absolute_path`: the deleted row's path,
      or null when no row matched. */
  function DeleteReturningPath(t: Table, id: Guid): (r: (Option<string>, Table))
    ensures RowRemoved(t, r.1, id)
    ensures r.0 == if id in t then Some(t[id].absolutePath) else None
  {
    if id in t then (Some(t[id].absolutePath), t - {id}) else (None, t)
  }
}
