/** The relational storage adapter: reading the schema version and turning
    the rows of one mismatch-page query into the page handed to callers. */
module StorageRdbms {
  import opened Results
  import opened LexOrder
  import opened InternalReconcileReport

  // ---------------------------------------------------------------------
  // Schema version

  /** A database error as SQLAlchemy raises it: the exception class, the
      class's `code` and the SQLSTATE the server reported. SQLAlchemy's
      `code` is a constant of the exception class naming its documentation
      page, the same for every instance; the server's reason is the SQLSTATE. */
  datatype DbErrorKind = ProgrammingError | OtherDbError
  datatype DbError = DbError(kind: DbErrorKind, code: string, sqlState: string)

  /** The `code` every SQLAlchemy `ProgrammingError` carries. */
  const ProgrammingErrorCode := "f405"

  /** The SQLSTATE for an undefined table (`undefined_table` in PostgreSQL). */
  const UndefinedTableState := "42P01"

  /** An error SQLAlchemy can raise: a `ProgrammingError` has its class code. */
  predicate Raisable(e: DbError) {
    e.kind == ProgrammingError ==> e.code == ProgrammingErrorCode
  }

  /** The error means the version table does not exist. */
  predicate IsUndefinedTable(e: DbError) {
    e.kind == ProgrammingError && e.sqlState == UndefinedTableState
  }

  /** `get_schema_version` as intended, given the outcome of the version
      query: either its rows (each a sequence of column values) or the error
      it raised. The first column of the first row is the installed version;
      a missing version table means version 1; every other error propagates. */
  function GetSchemaVersion(outcome: Result<seq<seq<int>>, DbError>): (r: Result<int, DbError>)
    requires outcome.Success? ==> |outcome.value| > 0 && |outcome.value[0]| > 0
    ensures outcome.Success? ==> r == Success(outcome.value[0][0])
    ensures outcome.Failure? && IsUndefinedTable(outcome.error) ==> r == Success(1)
    ensures r.Failure? <==> outcome.Failure? && !IsUndefinedTable(outcome.error)
    ensures r.Failure? ==> r.error == outcome.error
  {
    match outcome
    case Success(rows) => Success(rows[0][0])
    case Failure(e) => if IsUndefinedTable(e) then Success(1) else Failure(e)
  }

  /** `get_schema_version` as written: the `except ProgrammingError` branch
      compares the error's `code` with "f405". */
  function GetSchemaVersionAsWritten(outcome: Result<seq<seq<int>>, DbError>): (r: Result<int, DbError>)
    requires outcome.Success? ==> |outcome.value| > 0 && |outcome.value[0]| > 0
    ensures outcome.Success? ==> r == GetSchemaVersion(outcome)
    ensures r.Failure? ==> r.error == outcome.error
  {
    match outcome
    case Success(rows) => Success(rows[0][0])
    case Failure(e) => if e.kind == ProgrammingError && e.code == ProgrammingErrorCode then Success(1) else Failure(e)
  }

  /** As written, the code test holds for every `ProgrammingError`, so any
      such error is read as version 1, whatever the server's reason. */
  lemma AsWrittenMasksEveryProgrammingError(e: DbError)
    requires Raisable(e)
    ensures GetSchemaVersionAsWritten(Failure(e)) == Success(1) <==> e.kind == ProgrammingError
  {
  }

  /** A concrete case: permission denied on the version table (SQLSTATE
      42501) is reported as version 1 as written, and propagates as intended. */
  lemma AsWrittenReadsPermissionDeniedAsVersionOne()
    ensures
      var e := DbError(ProgrammingError, ProgrammingErrorCode, "42501");
      && Raisable(e)
      && GetSchemaVersionAsWritten(Failure(e)) == Success(1)
      && GetSchemaVersion(Failure(e)) == Failure(e)
  {
  }

  // ---------------------------------------------------------------------
  // Mismatch rows

  /** Paging direction. With `Next` the cursor opens the page, with
      `Previous` it closes it. */
  datatype Direction = Next | Previous

  /** One row of the mismatch query, with the query's column names. */
  datatype Row = Row(
    jobId: int,
    collectionId: string,
    granuleId: string,
    filename: string,
    keyPath: string,
    cumulusArchiveLocation: string,
    orcaEtag: string,
    s3Etag: string,
    orcaLastUpdate: int,
    s3LastUpdate: int,
    orcaSizeInBytes: int,
    s3SizeInBytes: int,
    orcaStorageClass: string,
    s3StorageClass: string,
    discrepancyType: string,
    comment: Option<string>)

  function RowKey(r: Row): Key {
    Key(r.collectionId, r.granuleId, r.keyPath)
  }

  /** The row a mismatch was read from: the inverse of `ToMismatch`. */
  function RowOf(m: Mismatch): Row {
    Row(m.jobId, m.collectionId, m.granuleId, m.filename, m.keyPath,
        m.cumulusArchiveLocation, m.orcaEtag, m.s3Etag,
        m.orcaGranuleLastUpdate, m.s3FileLastUpdate,
        m.orcaSizeInBytes, m.s3SizeInBytes,
        m.orcaStorageClass, m.s3StorageClass, m.discrepancyType, m.comment)
  }

  /** Builds the `Mismatch` for one fetched row, column by column. The two
      timestamp columns feed the record's two last-update fields. */
  function ToMismatch(r: Row): (m: Mismatch)
    ensures RowOf(m) == r
    ensures m.jobId == r.jobId && MismatchKey(m) == RowKey(r)
  {
    Mismatch(r.jobId, r.collectionId, r.granuleId, r.filename, r.keyPath,
             r.cumulusArchiveLocation, r.orcaEtag, r.s3Etag,
             r.orcaLastUpdate, r.s3LastUpdate,
             r.orcaSizeInBytes, r.s3SizeInBytes,
             r.orcaStorageClass, r.s3StorageClass, r.discrepancyType, r.comment)
  }

  /** Reading a record back as a row and mapping it again changes nothing:
      the column copy loses no field. */
  lemma ToMismatchRoundTrip(m: Mismatch)
    ensures ToMismatch(RowOf(m)) == m
  {
  }

  /** Distinct rows give distinct mismatches. */
  lemma ToMismatchInjective(r1: Row, r2: Row)
    requires ToMismatch(r1) == ToMismatch(r2)
    ensures r1 == r2
  {
    assert RowOf(ToMismatch(r1)) == r1;
  }

  /** The loop over the fetched rows: one mismatch per row, in fetch order. */
  function MapRows(rows: seq<Row>): (ms: seq<Mismatch>)
    ensures |ms| == |rows|
    ensures forall i :: 0 <= i < |rows| ==> ms[i] == ToMismatch(rows[i])
  {
    if |rows| == 0 then [] else [ToMismatch(rows[0])] + MapRows(rows[1..])
  }

  /** Python's in-place `list.reverse()`. */
  function Reverse<T>(s: seq<T>): (r: seq<T>)
    ensures |r| == |s|
    ensures forall i :: 0 <= i < |s| ==> r[i] == s[|s| - 1 - i]
  {
    if |s| == 0 then [] else Reverse(s[1..]) + [s[0]]
  }

  /** Reversing twice restores the original order. */
  lemma ReverseInvolutive<T>(s: seq<T>)
    ensures Reverse(Reverse(s)) == s
  {
  }

  /** The reversed list of mismatches holds the rows from last to first, and
      reversing it again gives back the list in fetch order. */
  lemma {:induction false} ReversedRows(fetched: seq<Row>)
    ensures forall i :: 0 <= i < |fetched| ==>
      Reverse(MapRows(fetched))[i] == ToMismatch(fetched[|fetched| - 1 - i])
    ensures Reverse(Reverse(MapRows(fetched))) == MapRows(fetched)
  {
    var mismatches := MapRows(fetched);
    ReverseInvolutive(mismatches);
    forall i | 0 <= i < |fetched|
      ensures Reverse(mismatches)[i] == ToMismatch(fetched[|fetched| - 1 - i])
    {
      assert Reverse(mismatches)[i] == mismatches[|fetched| - 1 - i];
    }
  }

  /** `get_mismatch_page` after its query has run: `fetched` is what the
      query returned, in the order it returned it. Each row becomes one
      mismatch; with `Previous` the list is reversed. */
  function GetMismatchPage(fetched: seq<Row>, direction: Direction): (page: seq<Mismatch>)
    ensures |page| == |fetched|
    ensures direction == Next ==>
      forall i :: 0 <= i < |fetched| ==> page[i] == ToMismatch(fetched[i])
    ensures direction == Previous ==>
      forall i :: 0 <= i < |fetched| ==> page[i] == ToMismatch(fetched[|fetched| - 1 - i])
    ensures direction == Previous ==> Reverse(page) == MapRows(fetched)
  {
    if direction == Previous then
      ReversedRows(fetched);
      Reverse(MapRows(fetched))
    else MapRows(fetched)
  }

  // ---------------------------------------------------------------------
  // The constructor call as the adapter writes it

  /** The parameter names of the `Mismatch` constructor, none with a default. */
  const MismatchParameters: seq<string> := [
    "job_id", "collection_id", "granule_id", "filename", "key_path",
    "cumulus_archive_location", "orca_etag", "s3_etag",
    "orca_granule_last_update", "s3_file_last_update",
    "orca_size_in_bytes", "s3_size_in_bytes",
    "orca_storage_class", "s3_storage_class", "discrepancy_type", "comment"]

  /** The keywords the adapter passes, named after the query's columns. */
  const AdapterKeywords: seq<string> := [
    "job_id", "collection_id", "granule_id", "filename", "key_path",
    "cumulus_archive_location", "orca_etag", "s3_etag",
    "orca_last_update", "s3_last_update",
    "orca_size_in_bytes", "s3_size_in_bytes",
    "orca_storage_class", "s3_storage_class", "discrepancy_type", "comment"]

  /** Why a keyword call fails to bind. */
  datatype BindError = UnexpectedKeyword(keyword: string) | MissingArgument(parameter: string)

  /** The first element of `s` that is not in `allowed`. */
  function FirstNotIn(s: seq<string>, allowed: seq<string>): (x: Option<string>)
    ensures x.None? <==> forall y :: y in s ==> y in allowed
    ensures x.Some? ==> x.value in s && x.value !in allowed
  {
    if |s| == 0 then None
    else if s[0] !in allowed then Some(s[0])
    else FirstNotIn(s[1..], allowed)
  }

  /** Python's binding of keyword arguments to parameters without defaults:
      an unknown keyword is reported first, then a parameter left without a
      value; `None` when the call binds. */
  function BindKeywords(keywords: seq<string>, parameters: seq<string>): (e: Option<BindError>)
    ensures e.None? <==> (forall k :: k in keywords ==> k in parameters) && (forall p :: p in parameters ==> p in keywords)
    ensures e.Some? && e.value.UnexpectedKeyword? ==> e.value.keyword in keywords && e.value.keyword !in parameters
    ensures e.Some? && e.value.MissingArgument? ==> e.value.parameter in parameters && e.value.parameter !in keywords
  {
    match FirstNotIn(keywords, parameters)
    case Some(k) => Some(UnexpectedKeyword(k))
    case None =>
      match FirstNotIn(parameters, keywords)
      case Some(p) => Some(MissingArgument(p))
      case None => None
  }

  /** `get_mismatch_page` exactly as written: the constructor is reached only
      when the query returned a row, and then the call does not bind. */
  function GetMismatchPageAsWritten(fetched: seq<Row>, direction: Direction): (r: Result<seq<Mismatch>, BindError>)
    ensures |fetched| == 0 ==> r == Success([])
    ensures |fetched| > 0 ==> r.Failure? && r.error.UnexpectedKeyword?
  {
    if |fetched| == 0 then Success([])
    else
      assert AdapterKeywords[8] == "orca_last_update";
      assert "orca_last_update" !in MismatchParameters;
      match BindKeywords(AdapterKeywords, MismatchParameters)
      case Some(e) => Failure(e)
      case None => Success(GetMismatchPage(fetched, direction))
  }

  /** As written, every non-empty page fails: `orca_last_update` is not a
      parameter of the constructor. */
  lemma AsWrittenFailsOnEveryRow(fetched: seq<Row>, direction: Direction)
    requires |fetched| > 0
    ensures GetMismatchPageAsWritten(fetched, direction).Failure?
    ensures GetMismatchPageAsWritten(fetched, direction).error.UnexpectedKeyword?
  {
    assert AdapterKeywords[8] == "orca_last_update";
    assert "orca_last_update" !in MismatchParameters;
  }
}
