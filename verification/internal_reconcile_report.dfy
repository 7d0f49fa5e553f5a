/** The value types of the internal reconciliation report: the job status
    codes, the `Phantom` and `Mismatch` records and the cursor that a
    returned record hands to the next page request. */
module InternalReconcileReport {
  import opened Results
  import opened LexOrder

  /** Status of a reconciliation job as stored in the reconciliation tables. */
  datatype ReconciliationStatus = GettingS3List | Staged | GeneratingReports | Error | Succeeded

  /** The numeric code stored for each status. */
  function StatusCode(s: ReconciliationStatus): (code: int)
    ensures 1 <= code <= 5
  {
    match s
    case GettingS3List => 1
    case Staged => 2
    case GeneratingReports => 3
    case Error => 4
    case Succeeded => 5
  }

  /** Decodes a stored status code; codes outside 1..5 name no status. */
  function StatusFromCode(code: int): (s: Option<ReconciliationStatus>)
    ensures s.Some? <==> 1 <= code <= 5
    ensures s.Some? ==> StatusCode(s.value) == code
  {
    if code == 1 then Some(GettingS3List)
    else if code == 2 then Some(Staged)
    else if code == 3 then Some(GeneratingReports)
    else if code == 4 then Some(Error)
    else if code == 5 then Some(Succeeded)
    else None
  }

  /** Decoding a status's code gives the status back, so the five codes are distinct. */
  lemma StatusCodeRoundTrip(s: ReconciliationStatus)
    ensures StatusFromCode(StatusCode(s)) == Some(s)
  {
  }

  lemma StatusCodesDistinct(s: ReconciliationStatus, t: ReconciliationStatus)
    ensures StatusCode(s) == StatusCode(t) <==> s == t
  {
    StatusCodeRoundTrip(s);
    StatusCodeRoundTrip(t);
  }

  /** A page position: the job and the key triple of the record last seen.
      It marks a place in the order, not a particular row. */
  datatype Cursor = Cursor(jobId: int, collectionId: string, granuleId: string, keyPath: string)

  /** The key triple a cursor points at. */
  function CursorKey(c: Cursor): Key {
    Key(c.collectionId, c.granuleId, c.keyPath)
  }

  /** A file catalogued in the archive but missing from the object store. */
  datatype Phantom = Phantom(
    jobId: int,
    collectionId: string,
    granuleId: string,
    filename: string,
    keyPath: string,
    orcaEtag: string,
    orcaGranuleLastUpdate: int,
    orcaSizeInBytes: int,
    orcaStorageClass: string)

  /** A discrepancy between the archive's catalogue and the object store.
      The constructor stores each argument in the field of the same name;
      `comment` may be absent. */
  datatype Mismatch = Mismatch(
    jobId: int,
    collectionId: string,
    granuleId: string,
    filename: string,
    keyPath: string,
    cumulusArchiveLocation: string,
    orcaEtag: string,
    s3Etag: string,
    orcaGranuleLastUpdate: int,
    s3FileLastUpdate: int,
    orcaSizeInBytes: int,
    s3SizeInBytes: int,
    orcaStorageClass: string,
    s3StorageClass: string,
    discrepancyType: string,
    comment: Option<string>)

  /** The sort key of a mismatch. */
  function MismatchKey(m: Mismatch): Key {
    Key(m.collectionId, m.granuleId, m.keyPath)
  }

  /** `Mismatch.get_cursor`: the position just after (or before) this record. */
  function MismatchCursor(m: Mismatch): (c: Cursor)
    ensures c.jobId == m.jobId && CursorKey(c) == MismatchKey(m)
  {
    Cursor(m.jobId, m.collectionId, m.granuleId, m.keyPath)
  }

  /** `Phantom.get_cursor`: the same four key fields, as a mismatch cursor. */
  function PhantomCursor(p: Phantom): (c: Cursor)
    ensures c.jobId == p.jobId
    ensures CursorKey(c) == Key(p.collectionId, p.granuleId, p.keyPath)
  {
    Cursor(p.jobId, p.collectionId, p.granuleId, p.keyPath)
  }

  /** Two mismatches give the same cursor exactly when they agree on the job
      and the key triple; etags, sizes, timestamps, storage classes,
      discrepancy type and comment play no part. */
  lemma MismatchCursorIgnoresPayload(m1: Mismatch, m2: Mismatch)
    ensures MismatchCursor(m1) == MismatchCursor(m2)
        <==> m1.jobId == m2.jobId && MismatchKey(m1) == MismatchKey(m2)
  {
  }

  /** The same for phantoms. */
  lemma PhantomCursorIgnoresPayload(p1: Phantom, p2: Phantom)
    ensures PhantomCursor(p1) == PhantomCursor(p2)
        <==> p1.jobId == p2.jobId && p1.collectionId == p2.collectionId
             && p1.granuleId == p2.granuleId && p1.keyPath == p2.keyPath
  {
  }
}
