/**
 The outcome logic of the HTTP handlers: how each handler turns what the file service
 returned or threw into a response. Routing, request parsing and logging are not modelled.
 */
module Endpoints {
  import opened Exceptions
  import opened FileModel
  import FileService
  import FileSqlRepository

  /** The body of a 200 response. */
  datatype Body = NoBody | Id(id: Guid) | Ids(ids: set<Guid>)

  /** The `Results` a handler returns. */
  datatype HttpResult = Ok(body: Body) | NotFound | Conflict | Problem
  {
    function StatusCode(): nat {
      match this
      case Ok(_) => 200
      case NotFound => 404
      case Conflict => 409
      case Problem => 500
    }
  }

  // ---------------------------------------------------------------- get-id-by-hash

  /** A found id is returned with 200; a null id becomes 404. */
  function GetIdByHashResult(id: Option<Guid>): (r: HttpResult)
    ensures r.Ok? <==> id.Some?
    ensures r.Ok? ==> r.body == Id(id.value)
    ensures id.None? <==> r == NotFound
  {
    match id
    case Some(v) => Ok(Id(v))
    case None => NotFound
  }

  /** The get-id-by-hash handler over the table: 200 with the id of a file holding that
      hash, or 404 when no file does. */
  method GetIdByHash(t: Table, hash: string) returns (r: HttpResult)
    ensures r.Ok? || r == NotFound
    ensures r.Ok? ==> r.body.Id? && r.body.id in t && t[r.body.id].hash == hash
    ensures r == NotFound <==> forall id | id in t :: t[id].hash != hash
  {
    var id := FileService.GetId(t, hash);
    r := GetIdByHashResult(id);
  }

  // ---------------------------------------------------------------- uploads

  /** What one call of the service's upload does: the id it returned or what it threw,
      and the state of the stores afterwards, whichever way it ended. */
  datatype Uploaded<S> = Uploaded(outcome: Outcome<Guid>, state: S)

  /** The upload-single handler: 200 with the id, or 500 whatever the upload threw. */
  function UploadSingle<S, F>(upload: (S, F) -> Uploaded<S>, s: S, file: F): (r: (HttpResult, S))
    ensures r.1 == upload(s, file).state
    ensures r.0.Ok? <==> upload(s, file).outcome.Returned?
    ensures r.0.Ok? ==> r.0.body == Id(upload(s, file).outcome.value)
    ensures !r.0.Ok? ==> r.0 == Problem
  {
    var u := upload(s, file);
    match u.outcome
    case Returned(id) => (Ok(Id(id)), u.state)
    case Threw(_) => (Problem, u.state)
  }

  /** The uploads of a sequence of files, in order, stopping at the first that throws:
      the ids of those that succeeded, what stopped the run, and the final state. */
  datatype Run<S> = Run(ids: seq<Guid>, failure: Option<Exception>, state: S)

  /** Uploads `files` one after the other, threading the state, until one throws. */
  function UploadAll<S, F>(upload: (S, F) -> Uploaded<S>, s: S, files: seq<F>): (r: Run<S>)
    ensures |r.ids| <= |files|
    ensures r.failure.None? ==> |r.ids| == |files|
    decreases |files|
  {
    if |files| == 0 then Run([], None, s)
    else
      var u := upload(s, files[0]);
      match u.outcome
      case Threw(e) => Run([], Some(e), u.state)
      case Returned(id) =>
        var rest := UploadAll(upload, u.state, files[1..]);
        Run([id] + rest.ids, rest.failure, rest.state)
  }

  /** The state after uploading the first `n` files one after the other, whatever each
      upload returned. */
  function StateAfter<S, F>(upload: (S, F) -> Uploaded<S>, s: S, files: seq<F>, n: nat): S
    requires n <= |files|
    decreases n
  {
    if n == 0 then s else upload(StateAfter(upload, s, files, n - 1), files[n - 1]).state
  }

  /** Uploading `n + 1` files is uploading the first, then `n` of the rest. */
  lemma {:induction false} StateAfterFirst<S, F>(upload: (S, F) -> Uploaded<S>, s: S, files: seq<F>, n: nat)
    requires n < |files|
    ensures StateAfter(upload, s, files, n + 1)
            == StateAfter(upload, upload(s, files[0]).state, files[1..], n)
    decreases n
  {
    if n > 0 {
      StateAfterFirst(upload, s, files, n - 1);
      assert files[1..][n - 1] == files[n];
    }
  }

  /** A run performs the uploads in file order with nothing rolled back: the i-th id is
      what the i-th upload returned from the state the earlier ones left, a run that stops
      does so at the first upload that threw, and the final state includes the effect
      of every upload performed, the failing one too. */
  lemma {:induction false} UploadAllRunsInOrder<S, F>(upload: (S, F) -> Uploaded<S>, s: S, files: seq<F>)
    ensures var r := UploadAll(upload, s, files);
            && (forall i | 0 <= i < |r.ids| ::
                  upload(StateAfter(upload, s, files, i), files[i]).outcome == Returned(r.ids[i]))
            && (r.failure.None? ==> r.state == StateAfter(upload, s, files, |files|))
            && (r.failure.Some? ==>
                  && |r.ids| < |files|
                  && upload(StateAfter(upload, s, files, |r.ids|), files[|r.ids|]).outcome
                     == Threw(r.failure.value)
                  && r.state == StateAfter(upload, s, files, |r.ids| + 1))
    decreases |files|
  {
    if |files| > 0 {
      var u := upload(s, files[0]);
      var r := UploadAll(upload, s, files);
      if u.outcome.Returned? {
        var rest := UploadAll(upload, u.state, files[1..]);
        UploadAllRunsInOrder(upload, u.state, files[1..]);
        forall n | 0 <= n < |files| {
          StateAfterFirst(upload, s, files, n);
        }
        forall i | 0 <= i < |r.ids|
          ensures upload(StateAfter(upload, s, files, i), files[i]).outcome == Returned(r.ids[i])
        {
          if i > 0 {
            assert r.ids[i] == rest.ids[i - 1];
            assert files[1..][i - 1] == files[i];
          }
        }
      }
    }
  }

  /** The ids in a sequence, duplicates collapsed. */
  function SetOf(xs: seq<Guid>): set<Guid> {
    set x | x in xs
  }

  /** Collapsing duplicates never adds ids. */
  lemma {:induction false} SetOfSize(xs: seq<Guid>)
    ensures |SetOf(xs)| <= |xs|
    decreases |xs|
  {
    if |xs| > 0 {
      var init := xs[..|xs| - 1];
      SetOfSize(init);
      assert SetOf(xs) == SetOf(init) + {xs[|xs| - 1]} by {
        assert xs == init + [xs[|xs| - 1]];
      }
    }
  }

  /** The upload-multiple handler: uploads every file in order, collecting the returned ids
      into a set; 200 with that set, or 500 as soon as one upload throws, with the uploads
      before it left in place. */
  method UploadMultiple<S, F>(upload: (S, F) -> Uploaded<S>, s: S, files: seq<F>) returns (r: HttpResult, s': S)
    ensures var run := UploadAll(upload, s, files);
            && s' == run.state
            && (run.failure.None? ==> r == Ok(Ids(SetOf(run.ids))))
            && (run.failure.Some? ==> r == Problem)
  {
    var ids: set<Guid> := {};
    ghost var done: seq<Guid> := [];
    var cur := s;
    var i := 0;
    while i < |files|
      invariant 0 <= i <= |files|
      invariant ids == SetOf(done)
      invariant var rest := UploadAll(upload, cur, files[i..]);
                UploadAll(upload, s, files) == Run(done + rest.ids, rest.failure, rest.state)
    {
      var u := upload(cur, files[i]);
      assert files[i..][0] == files[i];
      assert files[i..][1..] == files[i + 1..];
      match u.outcome {
        case Threw(_) =>
          r, s' := Problem, u.state;
          return;
        case Returned(id) =>
          var rest := UploadAll(upload, u.state, files[i + 1..]);
          assert done + ([id] + rest.ids) == (done + [id]) + rest.ids;
          ids := ids + {id};
          done := done + [id];
          cur := u.state;
      }
      i := i + 1;
    }
    assert files[i..] == [];
    assert done + [] == done;
    r, s' := Ok(Ids(ids)), cur;
  }

  /** The set an upload-multiple answer carries never holds more ids than files were sent. */
  lemma UploadedIdsBounded<S, F>(upload: (S, F) -> Uploaded<S>, s: S, files: seq<F>)
    ensures |SetOf(UploadAll(upload, s, files).ids)| <= |files|
  {
    SetOfSize(UploadAll(upload, s, files).ids);
  }

  /** Uploading one file through either handler performs the same upload: the single
      handler answers with the id the run over that one file collects. */
  lemma UploadSingleAgreesWithUploadAll<S, F>(upload: (S, F) -> Uploaded<S>, s: S, file: F)
    ensures var run := UploadAll(upload, s, [file]);
            && UploadSingle(upload, s, file).1 == run.state
            && (run.failure.None? <==> UploadSingle(upload, s, file).0.Ok?)
            && (run.failure.None? ==> UploadSingle(upload, s, file).0 == Ok(Id(run.ids[0])))
  {
    assert [file][1..] == [];
  }

  // ---------------------------------------------------------------- decrease-links-count

  /** The classes of the handler's catch clauses, in source order. */
  const DecreaseHandlers: seq<ExceptionType> :=
    [FileDoesNotExistException, LinksCountCannotBeNegativeException, BaseException]

  /** The decrease-links-count handler's response to what the service did: 200 on return;
      otherwise the first catch clause whose class the exception is an instance of decides,
      404 for FileDoesNotExistException, 409 for LinksCountCannotBeNegativeException, 500
      for anything else. No exception escapes: the last clause catches every class. */
  function DecreaseLinksCountResult(o: Outcome<()>): (r: HttpResult)
    ensures o.Returned? <==> r == Ok(NoBody)
    ensures o.Threw? && IsA(TypeOf(o.error), FileDoesNotExistException) ==> r == NotFound
    ensures (&& o.Threw?
             && !IsA(TypeOf(o.error), FileDoesNotExistException)
             && IsA(TypeOf(o.error), LinksCountCannotBeNegativeException)) ==> r == Conflict
    ensures (&& o.Threw?
             && !IsA(TypeOf(o.error), FileDoesNotExistException)
             && !IsA(TypeOf(o.error), LinksCountCannotBeNegativeException)) ==> r == Problem
    ensures o.Threw? ==> FirstHandler(TypeOf(o.error), DecreaseHandlers) < |DecreaseHandlers|
  {
    match o
    case Returned(_) => Ok(NoBody)
    case Threw(e) =>
      EveryTypeIsABaseException(TypeOf(e));
      var k := FirstHandler(TypeOf(e), DecreaseHandlers);
      if k == 0 then NotFound
      else if k == 1 then Conflict
      else Problem
  }

  /** How each exception the core throws is answered: only the repository's two
      exceptions get 404 and 409; FileService's missing-file exception, a database error
      and any other failure all fall through to 500. */
  lemma DecreaseLinksCountResultByException()
    ensures DecreaseLinksCountResult(Threw(FileDoesNotExist)) == NotFound
    ensures DecreaseLinksCountResult(Threw(LinksCountCannotBeNegative)) == Conflict
    ensures DecreaseLinksCountResult(Threw(FileDoesNotExistExist)) == Problem
    ensures forall state, constraint :: DecreaseLinksCountResult(Threw(Postgres(state, constraint))) == Problem
    ensures DecreaseLinksCountResult(Threw(Other)) == Problem
  {
    MissingFileExceptionsAreUnrelated();
    SiblingsAreUnrelated(FileDoesNotExistExistException, LinksCountCannotBeNegativeException);
    SiblingsAreUnrelated(LinksCountCannotBeNegativeException, FileDoesNotExistException);
    assert !IsA(PostgresException, FileDoesNotExistException);
    assert !IsA(PostgresException, LinksCountCannotBeNegativeException);
  }

  /** The decrease-links-count handler as written: it calls FileService. */
  function DecreaseLinksCountAsWritten(t: Table, id: Guid): (r: (HttpResult, Table))
    ensures id in t && t[id].linksCount >= 1 ==> r.0 == Ok(NoBody) && CountShifted(t, r.1, id, -1)
    ensures !(id in t && t[id].linksCount >= 1) ==> r.1 == t
  {
    var step := FileService.DecreaseLinksCount(t, id);
    (DecreaseLinksCountResult(step.outcome), step.table)
  }

  /** As written, releasing a file that does not exist answers 500, not 404: FileService
      throws FileDoesNotExistExistException, which the 404 clause does not catch. */
  lemma AsWrittenMissingFileIsProblem(t: Table, id: Guid)
    requires id !in t
    ensures DecreaseLinksCountAsWritten(t, id) == (Problem, t)
    ensures DecreaseLinksCountAsWritten(t, id).0.StatusCode() == 500
  {
    DecreaseLinksCountResultByException();
  }

  /** As written, releasing a file with no references left answers 500, not 409: the
      database's check violation reaches the handler untranslated. */
  lemma AsWrittenExhaustedFileIsProblem(t: Table, id: Guid)
    requires id in t && t[id].linksCount < 1
    ensures DecreaseLinksCountAsWritten(t, id) == (Problem, t)
    ensures DecreaseLinksCountAsWritten(t, id).0.StatusCode() == 500
  {
    DecreaseLinksCountResultByException();
  }

  /** The decrease-links-count handler served by the repository's TryDecreaseLinksCount,
      which throws exactly the exceptions the handler's clauses name: 200 and one reference
      fewer; 404 for a missing file; 409 for a file with no references left. */
  function DecreaseLinksCount(t: Table, id: Guid): (r: (HttpResult, Table))
    ensures id !in t ==> r == (NotFound, t)
    ensures id in t && t[id].linksCount < 1 ==> r == (Conflict, t)
    ensures id in t && t[id].linksCount >= 1 ==> r.0 == Ok(NoBody) && CountShifted(t, r.1, id, -1)
    ensures NonNegativeCounts(t) ==> NonNegativeCounts(r.1)
  {
    DecreaseLinksCountResultByException();
    var step := FileSqlRepository.TryDecreaseLinksCount(t, id);
    match step.outcome
    case Returned(_) => (DecreaseLinksCountResult(Returned(())), step.table)
    case Threw(e) => (DecreaseLinksCountResult(Threw(e)), step.table)
  }

  /** Both handlers leave the table in the same state, and agree whenever the release
      succeeds; they differ only in the status of the two failures. */
  lemma AsWrittenDiffersOnlyInFailureStatus(t: Table, id: Guid)
    ensures DecreaseLinksCountAsWritten(t, id).1 == DecreaseLinksCount(t, id).1
    ensures DecreaseLinksCount(t, id).0.Ok? ==> DecreaseLinksCountAsWritten(t, id) == DecreaseLinksCount(t, id)
    ensures !DecreaseLinksCount(t, id).0.Ok? ==> DecreaseLinksCountAsWritten(t, id).0 == Problem
  {
    if id !in t {
      AsWrittenMissingFileIsProblem(t, id);
    } else if t[id].linksCount < 1 {
      AsWrittenExhaustedFileIsProblem(t, id);
    }
  }
}
