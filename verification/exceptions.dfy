/**
 The exceptions the file storage throws and catches: the class hierarchy they live in,
 the way a sequence of C# `catch` clauses picks its handler, and `Outcome`, the value a
 call either returns or throws.
 */
module Exceptions {

  /** The exception classes that matter to the core, each with a single base class. */
  datatype ExceptionType =
    | BaseException                       // System.Exception, the root
    | SystemException
    | ExternalException
    | DbException
    | NpgsqlException
    | PostgresException                   // raised by the database server
    | InvalidOperationException
    | FileDoesNotExistException           // thrown by the repository
    | FileDoesNotExistExistException      // thrown by FileService
    | LinksCountCannotBeNegativeException

  /** The depth of a class below the root. */
  function Rank(t: ExceptionType): nat {
    match t
    case BaseException => 0
    case SystemException => 1
    case ExternalException => 2
    case InvalidOperationException => 2
    case DbException => 3
    case FileDoesNotExistException => 3
    case FileDoesNotExistExistException => 3
    case LinksCountCannotBeNegativeException => 3
    case NpgsqlException => 4
    case PostgresException => 5
  }

  /** The direct base class of every class except the root. */
  function Parent(t: ExceptionType): (p: ExceptionType)
    requires t != BaseException
    ensures Rank(p) + 1 == Rank(t)
    ensures t in {FileDoesNotExistException, FileDoesNotExistExistException, LinksCountCannotBeNegativeException}
            ==> p == InvalidOperationException
    ensures t in {DbException, NpgsqlException, PostgresException}
            ==> p in {ExternalException, DbException, NpgsqlException}
  {
    match t
    case SystemException => BaseException
    case ExternalException => SystemException
    case InvalidOperationException => SystemException
    case DbException => ExternalException
    case NpgsqlException => DbException
    case PostgresException => NpgsqlException
    case FileDoesNotExistException => InvalidOperationException
    case FileDoesNotExistExistException => InvalidOperationException
    case LinksCountCannotBeNegativeException => InvalidOperationException
  }

  /** `t` is `ancestor` or derives from it, directly or through its bases. */
  predicate IsA(t: ExceptionType, ancestor: ExceptionType)
    decreases Rank(t)
  {
    t == ancestor || (t != BaseException && IsA(Parent(t), ancestor))
  }

  /** A thrown exception value. `Other` is any exception of a class outside this model
      (a connection failure, an I/O error of an upload); only `catch (Exception)` sees it. */
  datatype Exception =
    | FileDoesNotExist
    | FileDoesNotExistExist
    | LinksCountCannotBeNegative
    | Postgres(sqlState: string, constraintName: string)
    | Other

  /** The run-time class of a thrown exception. */
  function TypeOf(e: Exception): ExceptionType {
    match e
    case FileDoesNotExist => FileDoesNotExistException
    case FileDoesNotExistExist => FileDoesNotExistExistException
    case LinksCountCannotBeNegative => LinksCountCannotBeNegativeException
    case Postgres(_, _) => PostgresException
    case Other => BaseException
  }

  /** What a call does: it returns a value or throws. */
  datatype Outcome<+T> = Returned(value: T) | Threw(error: Exception)

  /** The index of the catch clause that handles an exception of class `t`, given the
      clauses' declared classes in source order; `|handlers|` when none does. */
  function FirstHandler(t: ExceptionType, handlers: seq<ExceptionType>): (k: nat)
    ensures k <= |handlers|
    ensures k < |handlers| ==> IsA(t, handlers[k])
    ensures forall j | 0 <= j < k :: !IsA(t, handlers[j])
  {
    if |handlers| == 0 then 0
    else if IsA(t, handlers[0]) then 0
    else 1 + FirstHandler(t, handlers[1..])
  }

  /** Every class derives from the root, so `catch (Exception)` handles everything. */
  lemma {:induction false} EveryTypeIsABaseException(t: ExceptionType)
    ensures IsA(t, BaseException)
    decreases Rank(t)
  {
    if t != BaseException {
      EveryTypeIsABaseException(Parent(t));
    }
  }

  /** The class a thrown exception is caught as is one of its own class's ancestors,
      and its rank is no larger. */
  lemma {:induction false} IsAClimbsRank(t: ExceptionType, ancestor: ExceptionType)
    requires IsA(t, ancestor)
    ensures Rank(ancestor) <= Rank(t)
    ensures Rank(ancestor) == Rank(t) ==> t == ancestor
    decreases Rank(t)
  {
    if t != ancestor {
      IsAClimbsRank(Parent(t), ancestor);
    }
  }

  /** FileService's missing-file exception and the repository's are sibling classes:
      neither derives from the other, both derive from InvalidOperationException. */
  lemma MissingFileExceptionsAreUnrelated()
    ensures !IsA(FileDoesNotExistExistException, FileDoesNotExistException)
    ensures !IsA(FileDoesNotExistException, FileDoesNotExistExistException)
    ensures IsA(FileDoesNotExistExistException, InvalidOperationException)
    ensures IsA(FileDoesNotExistException, InvalidOperationException)
  {
    SiblingsAreUnrelated(FileDoesNotExistExistException, FileDoesNotExistException);
    SiblingsAreUnrelated(FileDoesNotExistException, FileDoesNotExistExistException);
  }

  /** Two distinct classes of the same rank never derive from one another. */
  lemma SiblingsAreUnrelated(a: ExceptionType, b: ExceptionType)
    requires a != b && Rank(a) == Rank(b)
    ensures !IsA(a, b)
  {
    if IsA(a, b) {
      IsAClimbsRank(a, b);
    }
  }
}
