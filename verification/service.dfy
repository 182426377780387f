/**
 FileService: an older service over the same `files` table. It sends the same statements
 as the repository, but signals a missing file with its own FileDoesNotExistExistException
 and lets the database's error on a negative count escape untranslated.
 */
module FileService {
  import opened Exceptions
  import opened FileModel
  import Sql

  /** The id of a file with the given hash, or null when no file has it. */
  method GetId(t: Table, hash: string) returns (r: Option<Guid>)
    ensures r.Some? ==> r.value in t && t[r.value].hash == hash
    ensures r.None? <==> forall id | id in t :: t[id].hash != hash
    ensures HashesUnique(t) ==> forall id | id in t && t[id].hash == hash :: r == Some(id)
  {
    r := Sql.SelectIdByHash(t, hash);
    if r.None? {
      forall id | id in t ensures t[id].hash != hash {
        assert id !in IdsWithHash(t, hash);
      }
    }
  }

  /** Adds one reference to file `id`; FileDoesNotExistExistException when there is no
      such row. */
  function IncreaseLinksCount(t: Table, id: Guid): (r: Transition<()>)
    ensures id !in t ==> r == Transition(Threw(FileDoesNotExistExist), t)
    ensures id in t && t[id].linksCount >= -1 ==>
              r.outcome.Returned? && CountShifted(t, r.table, id, 1)
    ensures id in t && t[id].linksCount < -1 ==> r == Transition(Threw(Sql.NegativeCountViolation), t)
    ensures NonNegativeCounts(t) ==> NonNegativeCounts(r.table)
  {
    match Sql.UpdateLinksCount(t, id, 1)
    case Threw(e) => Transition(Threw(e), t)
    case Returned(u) =>
      if u.affected < 1 then Transition(Threw(FileDoesNotExistExist), u.table)
      else Transition(Returned(()), u.table)
  }

  /** Releases one reference to file `id`. A missing file throws
      FileDoesNotExistExistException; a file with no references left makes the database
      refuse the update, and that error reaches the caller as the server raised it. */
  function DecreaseLinksCount(t: Table, id: Guid): (r: Transition<()>)
    ensures id !in t ==> r == Transition(Threw(FileDoesNotExistExist), t)
    ensures id in t && t[id].linksCount < 1 ==> r == Transition(Threw(Sql.NegativeCountViolation), t)
    ensures id in t && t[id].linksCount >= 1 ==>
              r.outcome.Returned? && CountShifted(t, r.table, id, -1)
    ensures r.outcome != Threw(LinksCountCannotBeNegative)
    ensures NonNegativeCounts(t) ==> NonNegativeCounts(r.table)
  {
    match Sql.UpdateLinksCount(t, id, -1)
    case Threw(e) => Transition(Threw(e), t)
    case Returned(u) =>
      if u.affected < 1 then Transition(Threw(FileDoesNotExistExist), u.table)
      else Transition(Returned(()), u.table)
  }
}
