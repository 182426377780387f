/**
 The table across many operations: any sequence of repository and service calls keeps
 every reference count non-negative, and the two implementations of the counters change
 the table in the same way, differing only in what they throw.
 */
module Lifecycle {
  import opened Exceptions
  import opened FileModel
  import Sql
  import FileSqlRepository
  import FileService

  /** One call that can change the table. */
  datatype Op =
    | RepositoryDecrease(id: Guid)
    | RepositoryIncrease(id: Guid)
    | RepositorySave(id: Guid, name: string, absolutePath: string, hash: string, linksCount: int)
    | RepositoryDelete(id: Guid)
    | ServiceIncrease(id: Guid)
    | ServiceDecrease(id: Guid)

  /** A save needs an id no row has; every other call can be made on any table. */
  predicate Applicable(t: Table, op: Op) {
    op.RepositorySave? ==> op.id !in t
  }

  /** The table after one call, whatever it returned or threw. */
  function Apply(t: Table, op: Op): Table
    requires Applicable(t, op)
  {
    match op
    case RepositoryDecrease(id) => FileSqlRepository.TryDecreaseLinksCount(t, id).table
    case RepositoryIncrease(id) => FileSqlRepository.IncreaseLinksCount(t, id).table
    case RepositorySave(id, name, path, hash, count) =>
      FileSqlRepository.SaveFileSummaryToDatabase(t, id, name, path, hash, count).table
    case RepositoryDelete(id) => FileSqlRepository.DeleteFile(t, id).table
    case ServiceIncrease(id) => FileService.IncreaseLinksCount(t, id).table
    case ServiceDecrease(id) => FileService.DecreaseLinksCount(t, id).table
  }

  /** Every call of `ops`, made in order from `t`, is applicable when it is made. */
  predicate Admissible(t: Table, ops: seq<Op>)
    decreases |ops|
  {
    |ops| == 0 || (Applicable(t, ops[0]) && Admissible(Apply(t, ops[0]), ops[1..]))
  }

  /** The table after the calls of `ops`, in order. */
  function ApplyAll(t: Table, ops: seq<Op>): Table
    requires Admissible(t, ops)
    decreases |ops|
  {
    if |ops| == 0 then t else ApplyAll(Apply(t, ops[0]), ops[1..])
  }

  /** No single call makes a reference count negative. */
  lemma ApplyPreservesNonNegativeCounts(t: Table, op: Op)
    requires NonNegativeCounts(t) && Applicable(t, op)
    ensures NonNegativeCounts(Apply(t, op))
  {
  }

  /** No sequence of calls ever makes a reference count negative. */
  lemma {:induction false} ApplyAllPreservesNonNegativeCounts(t: Table, ops: seq<Op>)
    requires NonNegativeCounts(t) && Admissible(t, ops)
    ensures NonNegativeCounts(ApplyAll(t, ops))
    decreases |ops|
  {
    if |ops| > 0 {
      ApplyPreservesNonNegativeCounts(t, ops[0]);
      ApplyAllPreservesNonNegativeCounts(Apply(t, ops[0]), ops[1..]);
    }
  }

  /** Releases of one file, `k` of them in a row, by the repository. */
  function Releases(k: nat, id: Guid): (ops: seq<Op>)
    ensures |ops| == k
    ensures forall i | 0 <= i < k :: ops[i] == RepositoryDecrease(id)
  {
    if k == 0 then [] else [RepositoryDecrease(id)] + Releases(k - 1, id)
  }

  /** Releasing a file `k` times when it holds `n >= k` references leaves it with
      `n - k` and every other row as it was. */
  lemma {:induction false} ReleasesCountDown(t: Table, id: Guid, k: nat)
    requires id in t && t[id].linksCount >= k
    ensures Admissible(t, Releases(k, id))
    ensures CountShifted(t, ApplyAll(t, Releases(k, id)), id, -(k as int))
    decreases k
  {
    var ops := Releases(k, id);
    if k == 0 {
      assert ApplyAll(t, ops) == t;
    } else {
      var t1 := Apply(t, ops[0]);
      assert ops[1..] == Releases(k - 1, id);
      ReleasesCountDown(t1, id, k - 1);
    }
  }

  /** Once a file's references are all released, one more release is refused and leaves
      the table alone, so the count never goes below zero. */
  lemma ReleaseBeyondZeroIsRefused(t: Table, id: Guid)
    requires id in t && t[id].linksCount >= 0
    ensures Admissible(t, Releases(t[id].linksCount, id))
    ensures var t' := ApplyAll(t, Releases(t[id].linksCount, id));
            && id in t' && t'[id].linksCount == 0
            && FileSqlRepository.TryDecreaseLinksCount(t', id)
               == Transition(Threw(LinksCountCannotBeNegative), t')
  {
    ReleasesCountDown(t, id, t[id].linksCount);
  }

  /** FileService and the repository increment the same way: the same table afterwards,
      success in the same cases, and a missing file reported by each with its own class. */
  lemma IncreasesAgree(t: Table, id: Guid)
    ensures FileService.IncreaseLinksCount(t, id).table == FileSqlRepository.IncreaseLinksCount(t, id).table
    ensures FileService.IncreaseLinksCount(t, id).outcome.Returned?
            <==> FileSqlRepository.IncreaseLinksCount(t, id).outcome.Returned?
    ensures FileSqlRepository.IncreaseLinksCount(t, id).outcome == Threw(FileDoesNotExist)
            <==> FileService.IncreaseLinksCount(t, id).outcome == Threw(FileDoesNotExistExist)
  {
  }

  /** FileService and the repository decrement the same way: the same table afterwards and
      success in the same cases; where the repository throws FileDoesNotExistException the
      service throws FileDoesNotExistExistException, and where the repository throws
      LinksCountCannotBeNegativeException the service lets the database error through. */
  lemma DecreasesAgree(t: Table, id: Guid)
    ensures FileService.DecreaseLinksCount(t, id).table == FileSqlRepository.TryDecreaseLinksCount(t, id).table
    ensures FileService.DecreaseLinksCount(t, id).outcome.Returned?
            <==> FileSqlRepository.TryDecreaseLinksCount(t, id).outcome.Returned?
    ensures FileSqlRepository.TryDecreaseLinksCount(t, id).outcome == Threw(FileDoesNotExist)
            <==> FileService.DecreaseLinksCount(t, id).outcome == Threw(FileDoesNotExistExist)
    ensures FileSqlRepository.TryDecreaseLinksCount(t, id).outcome == Threw(LinksCountCannotBeNegative)
            <==> FileService.DecreaseLinksCount(t, id).outcome == Threw(Sql.NegativeCountViolation)
  {
  }
}
