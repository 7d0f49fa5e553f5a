# Reconciliation paging and granule file-path extraction, in Dafny

This project models two small cores of an archive's serverless glue code and
proves properties of the models.

1. **Mismatch paging and the schema-version probe** (the relational storage
   adapter of the GraphQL service). A reconciliation job records
   *mismatches*: files whose archive catalogue entry and object-store copy
   disagree. Callers read them page by page with keyset pagination. A request
   names a job, a cursor (collection id, granule id, key path), a direction
   (`next` or `previous`) and a limit. The adapter runs one bounded query.
   It maps each returned row to a `Mismatch` and reverses the list for
   `previous`, so callers always see ascending order. The schema-version
   probe reads the version table and treats a missing version table as
   version 1.
2. **Granule file-path extraction** (the `extract_filepaths_for_granule`
   task). For each granule in a workflow event, the task keeps the files
   whose names match no excluded file type. It records each kept file's key
   with a destination bucket. The bucket comes from a regex-to-bucket
   dictionary built from the configuration's `file-buckets` and bucket
   aliases. The last matching regex, in dictionary order, wins.

The SQL text is dialect-specific and not shown. The query is therefore
specified by the predicate `MismatchPaging.IsFetch`, following the method's
documentation. A fetch returns only rows of the job, strictly past the cursor
in the requested direction, in ascending order for `next` and descending order
for `previous`. It returns at most `limit` rows, nearest the cursor first. The
post-processing is then proved against that predicate. Regular-expression
matching is an abstract parameter (`RegexBuckets.Regex`). Only the fixed
pattern `^s3://` is interpreted, as a prefix test.

Modules: `Results` (option/result types), `LexOrder` (the key order),
`InternalReconcileReport` (status codes, records, cursors), `StorageRdbms`
(schema version, row mapping, page post-processing), `MismatchPaging` (the
query contract and the paging theorems), `RegexBuckets` (bucket aliases, the
ordered regex dictionary, routing) and `ExtractFilepathsForGranule` (the
task).

Strings compare by character code, lexicographically. This is the order the
model assumes for the database's `ORDER BY`. Job ids, timestamps and sizes are
unbounded integers, as in Python.

## Model

| member | source | states |
|---|---|---|
| `LexOrder.KeyLessTrichotomy` | graphql/src/adapters/storage/rdbms.py:66-67 | any two distinct (collection_id, granule_id, key_path) triples are ordered one way or the other, so the page order is total |
| `LexOrder.KeyLessTransitive` | graphql/src/adapters/storage/rdbms.py:66-67 | the lexicographic order on key triples is transitive |
| `LexOrder.KeyLessIrreflexive` | graphql/src/adapters/storage/rdbms.py:71-73 | no key is strictly past itself, which is what makes the cursor bound non-inclusive |
| `LexOrder.EmptyKeyIsLeast` | graphql/src/adapters/storage/rdbms.py:71-73 | the all-empty cursor lies strictly below every other key |
| `InternalReconcileReport.StatusCode` | graphql/src/entities/internal_reconcile_report.py:21-25 | every status has a code between 1 and 5 |
| `InternalReconcileReport.StatusFromCode` | graphql/src/entities/internal_reconcile_report.py:15-25 | exactly the codes 1 to 5 name a status, and each decodes to the status with that code |
| `InternalReconcileReport.StatusCodesDistinct` | graphql/src/entities/internal_reconcile_report.py:21-25 | the five statuses GETTING_S3_LIST=1, STAGED=2, GENERATING_REPORTS=3, ERROR=4, SUCCESS=5 have pairwise distinct codes |
| `InternalReconcileReport.MismatchCursor` | graphql/src/entities/internal_reconcile_report.py:189-195 | `get_cursor` gives a cursor with the mismatch's job id and its key triple |
| `InternalReconcileReport.MismatchCursorIgnoresPayload` | graphql/src/entities/internal_reconcile_report.py:189-195 | two mismatches give equal cursors if and only if they agree on job id, collection id, granule id and key path, whatever their etags, sizes, timestamps, storage classes or comment |
| `InternalReconcileReport.PhantomCursor` | graphql/src/entities/internal_reconcile_report.py:108-114 | a phantom's cursor is a mismatch cursor holding the phantom's job id and key triple |
| `InternalReconcileReport.PhantomCursorIgnoresPayload` | graphql/src/entities/internal_reconcile_report.py:108-114 | two phantoms give equal cursors if and only if they agree on the four key fields |
| `StorageRdbms.GetSchemaVersion` | graphql/src/adapters/storage/rdbms.py:40-52 | as intended: the version is the first column of the first row; a ProgrammingError whose SQLSTATE is `undefined_table` (42P01) yields version 1; every other error is returned unchanged, and only then does the call fail |
| `StorageRdbms.GetSchemaVersionAsWritten` | graphql/src/adapters/storage/rdbms.py:40-52 | as written: a successful query reads the same version as intended, and an error that is not turned into version 1 is returned unchanged |
| `StorageRdbms.AsWrittenMasksEveryProgrammingError` | graphql/src/adapters/storage/rdbms.py:49-52 | as written, since every SQLAlchemy ProgrammingError carries the code `f405`, an error is read as version 1 exactly when it is a ProgrammingError |
| `StorageRdbms.AsWrittenReadsPermissionDeniedAsVersionOne` | graphql/src/adapters/storage/rdbms.py:49-52 | a ProgrammingError with SQLSTATE 42501 (permission denied) is version 1 as written, and propagates as intended |
| `StorageRdbms.ToMismatch` | graphql/src/adapters/storage/rdbms.py:96-114 | each row becomes a mismatch from which the row can be read back unchanged, with the same job id and key triple |
| `StorageRdbms.ToMismatchRoundTrip` | graphql/src/entities/internal_reconcile_report.py:151-187 | reading a mismatch back as a row and mapping it again gives the same mismatch: every field is stored unchanged |
| `StorageRdbms.ToMismatchInjective` | graphql/src/adapters/storage/rdbms.py:96-114 | distinct rows give distinct mismatches |
| `StorageRdbms.MapRows` | graphql/src/adapters/storage/rdbms.py:94-115 | exactly one mismatch per fetched row, in fetch order |
| `StorageRdbms.Reverse` | graphql/src/adapters/storage/rdbms.py:116-118 | the reversed list holds element `n-1-i` at position `i` |
| `StorageRdbms.ReversedRows` | graphql/src/adapters/storage/rdbms.py:116-118 | the reversed list of mismatches holds the fetched rows from last to first, and reversing it again restores fetch order |
| `StorageRdbms.ReverseInvolutive` | graphql/src/adapters/storage/rdbms.py:116-118 | reversing twice gives the original list |
| `StorageRdbms.GetMismatchPage` | graphql/src/adapters/storage/rdbms.py:94-119 | the page has one mismatch per fetched row; with `next` it keeps fetch order, with `previous` it is exactly the reverse of the fetched rows |
| `StorageRdbms.GetMismatchPageAsWritten` | graphql/src/adapters/storage/rdbms.py:94-119 | as written, an empty query result gives an empty page and any non-empty one fails with an unexpected-keyword error from the constructor call |
| `StorageRdbms.AsWrittenFailsOnEveryRow` | graphql/src/adapters/storage/rdbms.py:106-107 | as written, any non-empty page fails because the constructor is called with a keyword it does not accept |
| `MismatchPaging.IsFetch` | graphql/src/adapters/storage/rdbms.py:66-75 | the query contract: at most `limit` rows, all of the job and strictly past the cursor in the requested direction, sorted for that direction, and a row in range is left out only when the page is full of nearer rows (a predicate, no contract of its own) |
| `MismatchPaging.SortedPageIsAscending` | graphql/src/adapters/storage/rdbms.py:116-118 | rows in the fetch order of either direction become a strictly ascending page |
| `MismatchPaging.PageIsAscending` | graphql/src/adapters/storage/rdbms.py:66-67 | for any query result meeting the contract, the returned page is strictly ascending by key in both directions |
| `MismatchPaging.PageWithinBounds` | graphql/src/adapters/storage/rdbms.py:69-75 | the page has at most `limit` records, all rows of the job, all strictly after (`next`) or before (`previous`) the cursor; the cursor's own key never appears |
| `MismatchPaging.FetchIsUnique` | graphql/src/adapters/storage/rdbms.py:66-75 | the documented query contract determines the query result: two results that both meet it for the same table and request are equal |
| `MismatchPaging.FetchExists` | graphql/src/adapters/storage/rdbms.py:66-75 | when keys are unique within a job, some result meets the query contract for every table and request, so the contract is consistent |
| `MismatchPaging.WorkedExampleFirstPage` | graphql/src/adapters/storage/rdbms.py:66-75 | for job 42 with keys (A,1,k1) < (A,1,k2) < (A,2,k1) < (B,1,k1), a row of job 7 and limit 2, the first page from the empty cursor is exactly (A,1,k1), (A,1,k2): no other result satisfies the query, and the job-7 row never appears |
| `MismatchPaging.WorkedExampleSecondPage` | graphql/src/adapters/storage/rdbms.py:66-75 | in the same store, the next page after (A,1,k2) is exactly (A,2,k1), (B,1,k1) |
| `MismatchPaging.WorkedExamplePreviousPage` | graphql/src/adapters/storage/rdbms.py:66-75 | in the same store, the previous page before (B,1,k1) fetches (A,2,k1), (A,1,k2) nearest first, and the returned page is (A,1,k2), (A,2,k1) in ascending order, without the cursor row |
| `MismatchPaging.NextAfterLastRowIsEmpty` | graphql/src/adapters/storage/rdbms.py:71-74 | paging `next` from the key of the job's last row returns an empty page |
| `MismatchPaging.PreviousBeforeFirstRowIsEmpty` | graphql/src/adapters/storage/rdbms.py:71-74 | paging `previous` from the key of the job's first row returns an empty page |
| `MismatchPaging.FollowingRequest` | graphql/src/entities/internal_reconcile_report.py:189-195 | the next request of a walk uses the job and key of the last returned record's cursor |
| `MismatchPaging.ForwardWalkComplete` | graphql/src/adapters/storage/rdbms.py:66-75 | paging `next` from any cursor, each time from the last record's cursor, until an empty page, returns every row of the job past the start exactly once, in ascending order, and nothing else |
| `MismatchPaging.ForwardWalkFromStartVisitsJob` | graphql/src/adapters/storage/rdbms.py:66-75 | starting from the empty cursor, such a walk visits every row of the job |
| `MismatchPaging.WalkExists` | graphql/src/adapters/storage/rdbms.py:66-75 | when keys are unique within the job, paging `next` with a positive limit from any cursor reaches an empty page, after at most one request per row in range plus the final one |
| `RegexBuckets.ExcludeFileTypes` | tasks/extract_filepaths_for_granule/extract_filepaths_for_granule.py:42-43 | the excluded types are `collection.meta.excludeFileTypes`, and none when any of the three levels is absent |
| `RegexBuckets.AliasBuckets` | tasks/extract_filepaths_for_granule/extract_filepaths_for_granule.py:102-108 | the alias table succeeds if and only if all four bucket keys are present; it then maps exactly the four aliases to their configured buckets, and otherwise fails at `event['config']` |
| `RegexBuckets.Put` | tasks/extract_filepaths_for_granule/extract_filepaths_for_granule.py:117 | after `d[k] = v` the key `k` maps to `v`, the old keys keep their positions, and at most one key, `k`, is appended |
| `RegexBuckets.PutKeys` | tasks/extract_filepaths_for_granule/extract_filepaths_for_granule.py:117 | assignment leaves the key order unchanged for an existing key and appends a new key last |
| `RegexBuckets.PutOthers` | tasks/extract_filepaths_for_granule/extract_filepaths_for_granule.py:117 | assignment leaves the value of every other key unchanged |
| `RegexBuckets.PutDistinct` | tasks/extract_filepaths_for_granule/extract_filepaths_for_granule.py:117 | assignment keeps the keys distinct |
| `RegexBuckets.PutSpec` | tasks/extract_filepaths_for_granule/extract_filepaths_for_granule.py:117 | dictionary assignment sets the key's value, leaves other keys alone, keeps keys distinct, and appends only a new key |
| `RegexBuckets.AddRules` | tasks/extract_filepaths_for_granule/extract_filepaths_for_granule.py:115-117 | the loop only adds keys after the existing ones, never reordering them, and any failure is reported at `event['config']` |
| `RegexBuckets.AddRulesFailsIff` | tasks/extract_filepaths_for_granule/extract_filepaths_for_granule.py:115-117 | the loop over `file-buckets` fails if and only if some entry lacks a regex or a bucket, or names an unknown alias, and then raises the extraction error for `event['config']` |
| `RegexBuckets.AddRulesDistinct` | tasks/extract_filepaths_for_granule/extract_filepaths_for_granule.py:115-117 | when every entry resolves, the loop succeeds and the dictionary keys stay distinct |
| `RegexBuckets.OrderStep` | tasks/extract_filepaths_for_granule/extract_filepaths_for_granule.py:117 | assigning one regex extends the key order exactly as the first-occurrence reference order of the remaining regexes does |
| `RegexBuckets.AddRulesOrder` | tasks/extract_filepaths_for_granule/extract_filepaths_for_granule.py:115-117 | when every entry resolves, the new regexes follow the old keys in the order of their first occurrence among the entries |
| `RegexBuckets.AddRulesLookup` | tasks/extract_filepaths_for_granule/extract_filepaths_for_granule.py:115-117 | when every entry resolves, each regex maps to the configured bucket of the alias of its last entry, and other keys keep their old values |
| `RegexBuckets.AddRulesSpec` | tasks/extract_filepaths_for_granule/extract_filepaths_for_granule.py:115-117 | the distinctness, order and lookup facts together, for entries that all resolve |
| `RegexBuckets.GetRegexBuckets` | tasks/extract_filepaths_for_granule/extract_filepaths_for_granule.py:102-126 | every failure of `get_regex_buckets` is reported at `event['config']` |
| `RegexBuckets.GetRegexBucketsSpec` | tasks/extract_filepaths_for_granule/extract_filepaths_for_granule.py:102-126 | `get_regex_buckets` succeeds if and only if the configuration is complete; on failure it raises the extraction error for `event['config']`; on success each distinct regex maps to the configured bucket of its last entry's alias, in first-occurrence order |
| `RegexBuckets.RepeatedRegexKeepsFirstPosition` | tasks/extract_filepaths_for_granule/extract_filepaths_for_granule.py:115-117 | a regex listed twice keeps its first position but takes the later bucket, which changes which bucket the last match picks |
| `RegexBuckets.ScanDest` | tasks/extract_filepaths_for_granule/extract_filepaths_for_granule.py:74-79 | the routing loop ends on the bucket of the last matching regex in dictionary order, and keeps its starting value when no regex matches |
| `RegexBuckets.DestBucket` | tasks/extract_filepaths_for_granule/extract_filepaths_for_granule.py:74-79 | the destination bucket equals the last-match reference definition |
| `RegexBuckets.LastMatch` | tasks/extract_filepaths_for_granule/extract_filepaths_for_granule.py:74-79 | the bucket of the last binding whose regex matches, and none exactly when no regex matches |
| `RegexBuckets.DestBucketIsLastMatch` | tasks/extract_filepaths_for_granule/extract_filepaths_for_granule.py:74-79 | the destination chosen by the loop is the bucket of the last matching regex in dictionary order, and none when nothing matches |
| `ExtractFilepathsForGranule.Basename` | tasks/extract_filepaths_for_granule/extract_filepaths_for_granule.py:67 | the basename is the longest slash-free suffix of the path |
| `ExtractFilepathsForGranule.BasenameOfJoin` | tasks/extract_filepaths_for_granule/extract_filepaths_for_granule.py:67 | the basename of `dir/name` is `name` |
| `ExtractFilepathsForGranule.RoutingName` | tasks/extract_filepaths_for_granule/extract_filepaths_for_granule.py:67-68 | the routing name is a suffix of the file name, and for an `s3://` URL it holds no slash |
| `ExtractFilepathsForGranule.RoutingNameSpec` | tasks/extract_filepaths_for_granule/extract_filepaths_for_granule.py:67-68 | an `s3://` URL is filtered and routed by its last path segment; any other file name is used unchanged |
| `ExtractFilepathsForGranule.ShouldExcludeFilesType` | tasks/extract_filepaths_for_granule/extract_filepaths_for_granule.py:128-144 | a name is excluded if and only if the pattern `^.*{type}$` is found in it for some excluded type; an empty list excludes nothing |
| `ExtractFilepathsForGranule.KeptFiles` | tasks/extract_filepaths_for_granule/extract_filepaths_for_granule.py:65-79 | a file is among the kept files if and only if it is an input file with a name that no excluded type matches; there are no more kept files than input files |
| `ExtractFilepathsForGranule.KeptFilesAppend` | tasks/extract_filepaths_for_granule/extract_filepaths_for_granule.py:65-79 | keeping distributes over concatenation, so kept files keep their input order and multiplicity |
| `ExtractFilepathsForGranule.KeptFilesSingle` | tasks/extract_filepaths_for_granule/extract_filepaths_for_granule.py:70-71 | one file is kept exactly when it has a name that no excluded type matches |
| `ExtractFilepathsForGranule.FileKeys` | tasks/extract_filepaths_for_granule/extract_filepaths_for_granule.py:65-80 | the file loop yields at most one key per file, and any failure is reported at the files level |
| `ExtractFilepathsForGranule.FileKeysSucceedsIff` | tasks/extract_filepaths_for_granule/extract_filepaths_for_granule.py:65-80 | for patterns that compile, the file loop succeeds if and only if every file has a name and, unless excluded, a key, and otherwise fails on `fileName` or `key` |
| `ExtractFilepathsForGranule.FileKeysOutput` | tasks/extract_filepaths_for_granule/extract_filepaths_for_granule.py:70-79 | a successful file loop yields one key per kept file, in input order, with that file's key and destination bucket |
| `ExtractFilepathsForGranule.FileKeysSpec` | tasks/extract_filepaths_for_granule/extract_filepaths_for_granule.py:65-80 | for patterns that compile, the file loop succeeds if and only if every file has a name and, unless excluded, a key; it then yields one key per kept file, in input order, with that file's destination bucket; otherwise it fails on `fileName` or `key` |
| `ExtractFilepathsForGranule.ProcessGranules` | tasks/extract_filepaths_for_granule/extract_filepaths_for_granule.py:59-83 | the granule loop yields one granule per input granule with the same `granuleId`, and fails only at the granule or files level |
| `ExtractFilepathsForGranule.ProcessGranulesSpec` | tasks/extract_filepaths_for_granule/extract_filepaths_for_granule.py:59-83 | for patterns that compile, the granule loop succeeds if and only if every granule has `granuleId` and well-formed `files`; it yields one granule per input, in order, each the input granule with only `keys` set |
| `ExtractFilepathsForGranule.ProcessGranulesErrorLevels` | tasks/extract_filepaths_for_granule/extract_filepaths_for_granule.py:63-66 | a failing granule loop reports the granule level or the files level |
| `ExtractFilepathsForGranule.Task` | tasks/extract_filepaths_for_granule/extract_filepaths_for_granule.py:23-86 | a successful task had a configuration and input granules, and returns as many granules as it was given |
| `ExtractFilepathsForGranule.TaskSpec` | tasks/extract_filepaths_for_granule/extract_filepaths_for_granule.py:23-86 | for patterns that compile, the task succeeds if and only if the event holds every key it reads; it then returns the granules in order, each with `keys` added and nothing else changed |
| `ExtractFilepathsForGranule.TaskErrorLevels` | tasks/extract_filepaths_for_granule/extract_filepaths_for_granule.py:40-85 | a failing task reports the missing configuration, or an extraction error at the configuration, input, granule or files level, and no partial result |

The cursor bound is non-inclusive, as the method documents. So a `previous`
page before (B,1,k1) does not contain (B,1,k1) itself (`WorkedExamplePreviousPage`).

## Left out

- `tasks/post_to_queue_and_trigger_step_function/post_to_queue_and_trigger_step_function.py` is not part of this model. It is queue and state-machine I/O with schema validators that are not shown.
- The database engine, connections, transactions and the SQL text of both statements are not modelled. The mismatch query is specified by `MismatchPaging.IsFetch`, and the version query by its outcome, passed in as a parameter.
- The retry-on-operational-error decorator is a library with backoff and timing behaviour. It is not modelled. An error reaching `GetSchemaVersion` is the error after retries.
- Logging, the Lambda `handler` and the `run_cumulus_task` wrapper are not modelled.
- Regular-expression semantics are not modelled. `re.search` and `re.match` are the two abstract functions of `RegexBuckets.Regex`, and they are total.
- ExtractFilepathsForGranule.TaskSpec: a regex or an excluded file type that does not compile makes `re.compile` (extract_filepaths_for_granule.py line 76) or `re.search` (line 139) raise `re.error`, which the `except KeyError` clause does not catch, so the task raises. Total regex functions cannot represent that failure, so this lemma and `FileKeysSucceedsIff`, `FileKeysSpec`, `ProcessGranulesSpec` and `ExtractFilepathsForGranule.Task` describe only events whose patterns all compile.
- ExtractFilepathsForGranule.FileKeysSucceedsIff: holds only for patterns that compile, for the reason given for `TaskSpec`.
- ExtractFilepathsForGranule.FileKeysSpec: holds only for patterns that compile, for the reason given for `TaskSpec`.
- ExtractFilepathsForGranule.ProcessGranulesSpec: holds only for patterns that compile, for the reason given for `TaskSpec`.
- The GraphQL float widening of ids, timestamps and sizes, and the Pydantic/Strawberry decorators, are not modelled. These values are unbounded integers here.
- `InternalReconcileReportCursor` and its input/output subclasses hold only a job id and are used by no modelled operation. They are not modelled.
- GetSchemaVersion: a version query that returns no row is excluded by a precondition. The source would index into `None` there and raise `TypeError`.
- GetSchemaVersionAsWritten: the same precondition excludes a version query that returns no row, for the same reason.
- ForwardWalkFromStartVisitsJob: requires keys unique within the job, and assumes no row has all three key fields empty. Such a row equals the empty cursor, and the strict bound never returns it.
- MismatchPaging.IsFetch: the contract orders rows strictly by key, so it describes the query only for a table where collection id, granule id and key path identify a row within a job (`UniqueKeys`, under which `FetchExists` shows a result always exists). With two rows of one key, the query returns both, and a page boundary between them skips one on the next page; that case is not modelled.
- MismatchPaging.Request: the limit is a natural number. The source's parameter is a plain integer; what the database does with a negative limit is not modelled.
- ForwardWalkComplete: requires keys unique within the job, as `IsFetch` does. The limit must be positive. A zero limit returns an empty page and ends the walk at once.
- A missing `event['config']` ends in the `UnboundConfig` error. In the source, the `except KeyError` clause of `task` (extract_filepaths_for_granule.py lines 48-49) builds its message from `config`, which was never assigned when the key is missing. Its message text and the other error messages are not modelled. Errors carry the level and the missing key instead.
- Event values of the wrong type, such as a granule that is not a dictionary, are not modelled. Keys are either present with a value of the expected type or missing. Fields the task does not read are carried as an opaque string map.
- The `Mismatch` constructor is the Dafny datatype constructor. Its arguments become its fields by construction, and `comment` is an `Option`.

## Findings

| source | as written | input that shows it | evidently intended | confidence | as-written member | corrected member |
|---|---|---|---|---|---|---|
| graphql/src/adapters/storage/rdbms.py:106-107 | the constructor is called with `orca_last_update` and `s3_last_update`, but `Mismatch.__init__` takes `orca_granule_last_update` and `s3_file_last_update` and no other keywords | any mismatch query that returns at least one row | copy the two timestamp columns into the two last-update fields | medium, not executed | `StorageRdbms.AsWrittenFailsOnEveryRow` | `StorageRdbms.ToMismatch` |
| graphql/src/adapters/storage/rdbms.py:49-52 | `except ProgrammingError` then `ex.code == "f405"`; SQLAlchemy sets `code` to the constant "f405" on every ProgrammingError, so the test is true for all of them | a ProgrammingError other than a missing table, such as SQLSTATE 42501 (permission denied) on the version table | return 1 only for an undefined table (SQLSTATE 42P01), as the `# UndefinedTable` comment says, and re-raise every other error | medium, not executed | `StorageRdbms.AsWrittenReadsPermissionDeniedAsVersionOne` | `StorageRdbms.GetSchemaVersion` |
