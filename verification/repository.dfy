/**
 FileSqlRepository: the data-access class over the `files` table. Each method is one
 statement, so each becomes one transition; the exceptions it throws become `Threw`.
 */
module FileSqlRepository {
  import opened Exceptions
  import opened FileModel
  import Sql

  /** The id of a file with the given hash, or null when no file has it. */
  method GetIdByHash(t: Table, hash: string) returns (r: Option<Guid>)
    ensures r.Some? ==> r.value in t && t[r.value].hash == hash
    ensures r.None? <==> forall id | id in t :: t[id].hash != hash
    ensures HashesUnique(t) ==> forall id | id in t && t[id].hash == hash :: r == Some(id)
  {
    r := Sql.SelectIdByHash(t, hash);
    if r.None? {
      forall id | id in t ensures t[id].hash != hash {
        assert id !in IdsWithHash(t, hash);
      }
    }
  }

  /** The summary of file `id`; FileDoesNotExistException when there is no such row. */
  function GetFileSummary(t: Table, id: Guid): (r: Outcome<FileSummary>)
    ensures r.Returned? <==> id in t
    ensures r.Returned? ==> r.value.id == id && r.value.ToRow() == t[id]
    ensures r.Threw? ==> r.error == FileDoesNotExist
  {
    match Sql.SelectById(t, id)
    case None => Threw(FileDoesNotExist)
    case Some(row) => Returned(FileSummary(id, row.hash, row.absolutePath, row.name, row.linksCount))
  }

  /** The catch filter: a check violation of the non-negative constraint, and nothing else. */
  function IsNegativeCountViolation(e: Exception): (b: bool)
    ensures b <==> e == Sql.NegativeCountViolation
    ensures b ==> TypeOf(e) == PostgresException
  {
    e.Postgres? && e.sqlState == Sql.CheckViolation && e.constraintName == Sql.NonNegativeLinksCount
  }

  /** Releases one reference to file `id` and returns the count left. A missing file
      throws FileDoesNotExistException; a release of a file with no references is refused
      by the check constraint and surfaces as LinksCountCannotBeNegativeException. */
  function TryDecreaseLinksCount(t: Table, id: Guid): (r: Transition<int>)
    ensures id !in t ==> r == Transition(Threw(FileDoesNotExist), t)
    ensures id in t && t[id].linksCount < 1 ==> r == Transition(Threw(LinksCountCannotBeNegative), t)
    ensures id in t && t[id].linksCount >= 1 ==>
              && r.outcome == Returned(t[id].linksCount - 1)
              && CountShifted(t, r.table, id, -1)
    ensures r.outcome.Returned? ==> r.outcome.value >= 0
    ensures NonNegativeCounts(t) ==> NonNegativeCounts(r.table)
  {
    match Sql.UpdateLinksCount(t, id, -1)
    case Threw(e) =>
      if IsNegativeCountViolation(e) then Transition(Threw(LinksCountCannotBeNegative), t)
      else Transition(Threw(e), t)
    case Returned(u) =>
      match u.returning
      case None => Transition(Threw(FileDoesNotExist), u.table)
      case Some(n) => Transition(Returned(n), u.table)
  }

  /** Inserts a new row with the given columns. The id must be new; a negative count is
      refused by the check constraint and propagates as the server's error. */
  function SaveFileSummaryToDatabase(t: Table, id: Guid, name: string, absolutePath: string,
                                     hash: string, linksCount: int): (r: Transition<()>)
    requires id !in t
    ensures linksCount >= 0 ==>
              && r.outcome.Returned?
              && RowAdded(t, r.table, id, Row(hash, absolutePath, name, linksCount))
    ensures linksCount < 0 ==> r == Transition(Threw(Sql.NegativeCountViolation), t)
    ensures NonNegativeCounts(t) ==> NonNegativeCounts(r.table)
  {
    match Sql.Insert(t, id, Row(hash, absolutePath, name, linksCount))
    case Threw(e) => Transition(Threw(e), t)
    case Returned(t') => Transition(Returned(()), t')
  }

  /** Adds one reference to file `id`; FileDoesNotExistException when there is no such row. */
  function IncreaseLinksCount(t: Table, id: Guid): (r: Transition<()>)
    ensures id !in t ==> r == Transition(Threw(FileDoesNotExist), t)
    ensures id in t && t[id].linksCount >= -1 ==>
              r.outcome.Returned? && CountShifted(t, r.table, id, 1)
    ensures id in t && t[id].linksCount < -1 ==> r == Transition(Threw(Sql.NegativeCountViolation), t)
    ensures NonNegativeCounts(t) ==> NonNegativeCounts(r.table)
  {
    match Sql.UpdateLinksCount(t, id, 1)
    case Threw(e) => Transition(Threw(e), t)
    case Returned(u) =>
      if u.affected < 1 then Transition(Threw(FileDoesNotExist), u.table)
      else Transition(Returned(()), u.table)
  }

  /** Deletes row `id` and returns its path. A missing row throws FileDoesNotExistException;
      so does a row whose stored path is blank, although that row is deleted all the same. */
  function DeleteFile(t: Table, id: Guid): (r: Transition<string>)
    ensures RowRemoved(t, r.table, id)
    ensures r.outcome.Returned? <==> id in t && !IsNullOrWhiteSpace(Some(t[id].absolutePath))
    ensures r.outcome.Returned? ==> r.outcome.value == t[id].absolutePath
    ensures r.outcome.Threw? ==> r.outcome.error == FileDoesNotExist
    ensures NonNegativeCounts(t) ==> NonNegativeCounts(r.table)
  {
    var (path, t') := Sql.DeleteReturningPath(t, id);
    if IsNullOrWhiteSpace(path) then Transition(Threw(FileDoesNotExist), t')
    else Transition(Returned(path.value), t')
  }

  /** Adding a reference and then releasing it restores the table and reports the
      count the file had before. */
  lemma IncreaseThenDecrease(t: Table, id: Guid)
    requires id in t && t[id].linksCount >= 0
    ensures TryDecreaseLinksCount(IncreaseLinksCount(t, id).table, id)
            == Transition(Returned(t[id].linksCount), t)
  {
    var t1 := IncreaseLinksCount(t, id).table;
    var r := TryDecreaseLinksCount(t1, id);
    assert r.table == t by {
      assert r.table.Keys == t.Keys;
      forall k | k in t ensures r.table[k] == t[k] {
        if k == id {
          assert r.table[k].linksCount == t[k].linksCount;
        }
      }
    }
  }

  /** Releasing a reference and then adding one back restores the table. */
  lemma DecreaseThenIncrease(t: Table, id: Guid)
    requires id in t && t[id].linksCount >= 1
    ensures IncreaseLinksCount(TryDecreaseLinksCount(t, id).table, id) == Transition(Returned(()), t)
  {
    var t1 := TryDecreaseLinksCount(t, id).table;
    var r := IncreaseLinksCount(t1, id);
    assert r.table == t by {
      assert r.table.Keys == t.Keys;
      forall k | k in t ensures r.table[k] == t[k] {
        if k == id {
          assert r.table[k].linksCount == t[k].linksCount;
        }
      }
    }
  }

  /** A saved row reads back as exactly the fields it was saved with. */
  lemma SaveThenGetFileSummary(t: Table, id: Guid, name: string, absolutePath: string,
                               hash: string, linksCount: int)
    requires id !in t && linksCount >= 0
    ensures GetFileSummary(SaveFileSummaryToDatabase(t, id, name, absolutePath, hash, linksCount).table, id)
            == Returned(FileSummary(id, hash, absolutePath, name, linksCount))
  {
  }

  /** Deleting a row just saved with a non-blank path gives the path back and restores
      the table. */
  lemma SaveThenDelete(t: Table, id: Guid, name: string, absolutePath: string,
                       hash: string, linksCount: int)
    requires id !in t && linksCount >= 0
    requires !IsNullOrWhiteSpace(Some(absolutePath))
    ensures DeleteFile(SaveFileSummaryToDatabase(t, id, name, absolutePath, hash, linksCount).table, id)
            == Transition(Returned(absolutePath), t)
  {
    var t1 := SaveFileSummaryToDatabase(t, id, name, absolutePath, hash, linksCount).table;
    assert DeleteFile(t1, id).table == t;
  }

  /** Saving a row whose hash no row has keeps hashes unique, and the new id is then the
      only one with that hash. */
  lemma SaveWithFreshHash(t: Table, id: Guid, name: string, absolutePath: string,
                          hash: string, linksCount: int)
    requires id !in t && linksCount >= 0
    requires HashesUnique(t) && IdsWithHash(t, hash) == {}
    ensures HashesUnique(SaveFileSummaryToDatabase(t, id, name, absolutePath, hash, linksCount).table)
    ensures IdsWithHash(SaveFileSummaryToDatabase(t, id, name, absolutePath, hash, linksCount).table, hash) == {id}
  {
    var t1 := SaveFileSummaryToDatabase(t, id, name, absolutePath, hash, linksCount).table;
    forall a, b | a in t1 && b in t1 && t1[a].hash == t1[b].hash ensures a == b {
      if a != id && b != id {
        assert t1[a] == t[a] && t1[b] == t[b];
      }
    }
  }

  /** Once a file is deleted, looking it up, releasing it and referencing it again all
      report that it does not exist, and none of them touches the table. */
  lemma DeletedFileIsGone(t: Table, id: Guid)
    ensures var t1 := DeleteFile(t, id).table;
            && GetFileSummary(t1, id) == Threw(FileDoesNotExist)
            && TryDecreaseLinksCount(t1, id) == Transition(Threw(FileDoesNotExist), t1)
            && IncreaseLinksCount(t1, id) == Transition(Threw(FileDoesNotExist), t1)
  {
  }
}
