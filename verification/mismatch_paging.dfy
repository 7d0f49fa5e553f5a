/** What the mismatch-page query promises, and what the adapter's
    post-processing makes of it.

    The SQL text is supplied per database dialect and is not modelled; it is
    specified instead by `IsFetch`, which states the documented contract of
    one query: rows of the requested job only, strictly past the cursor in
    the requested direction, in that direction's order, at most `limit` of
    them, and the ones nearest the cursor first. */
module MismatchPaging {
  import Results
  import opened LexOrder
  import opened InternalReconcileReport
  import opened StorageRdbms

  /** The arguments of one `get_mismatch_page` call; `cursor` holds the three
      cursor fields. */
  datatype Request = Request(jobId: int, cursor: Key, direction: Direction, limit: nat)

  /** The range predicate of the query: the row belongs to the job and lies
      strictly after (`Next`) or strictly before (`Previous`) the cursor. */
  predicate InRange(r: Row, req: Request) {
    && r.jobId == req.jobId
    && match req.direction
       case Next => KeyLess(req.cursor, RowKey(r))
       case Previous => KeyLess(RowKey(r), req.cursor)
  }

  /** `a` comes strictly before `b` in the query's sort order: ascending by
      key for `Next`, descending for `Previous`. */
  predicate Precedes(a: Row, b: Row, direction: Direction) {
    match direction
    case Next => KeyLess(RowKey(a), RowKey(b))
    case Previous => KeyLess(RowKey(b), RowKey(a))
  }

  /** The fetched rows follow the query's sort order for `direction`. */
  predicate SortedFor(fetched: seq<Row>, direction: Direction) {
    forall i, j :: 0 <= i < j < |fetched| ==> Precedes(fetched[i], fetched[j], direction)
  }

  /** Every fetched row is a row of the table within the request's range. */
  predicate AllInRange(store: seq<Row>, req: Request, fetched: seq<Row>) {
    forall i :: 0 <= i < |fetched| ==> fetched[i] in store && InRange(fetched[i], req)
  }

  /** A row in range is left out only when the page is full and every
      fetched row is nearer the cursor than it. */
  predicate NearestFirst(store: seq<Row>, req: Request, fetched: seq<Row>) {
    forall r :: r in store && InRange(r, req) && r !in fetched ==>
      && |fetched| == req.limit
      && forall i :: 0 <= i < |fetched| ==> Precedes(fetched[i], r, req.direction)
  }

  /** `fetched` is a result the query may return for `req` over the table
      contents `store`. */
  predicate IsFetch(store: seq<Row>, req: Request, fetched: seq<Row>) {
    && |fetched| <= req.limit
    && AllInRange(store, req, fetched)
    && SortedFor(fetched, req.direction)
    && NearestFirst(store, req, fetched)
  }

  /** A page in natural order: keys strictly increasing, hence no duplicates. */
  predicate StrictlyAscending(page: seq<Mismatch>) {
    forall i, j :: 0 <= i < j < |page| ==> KeyLess(MismatchKey(page[i]), MismatchKey(page[j]))
  }

  /** Whichever direction was requested, the caller receives the page in
      ascending key order: a `Previous` query fetches descending and the
      reversal restores ascending order. */
  lemma PageIsAscending(store: seq<Row>, req: Request, fetched: seq<Row>)
    requires IsFetch(store, req, fetched)
    ensures StrictlyAscending(GetMismatchPage(fetched, req.direction))
  {
    SortedPageIsAscending(fetched, req.direction);
  }

  /** The post-processing alone: rows in the query's order for `direction`
      become an ascending page. */
  lemma SortedPageIsAscending(fetched: seq<Row>, direction: Direction)
    requires SortedFor(fetched, direction)
    ensures StrictlyAscending(GetMismatchPage(fetched, direction))
  {
    var page := GetMismatchPage(fetched, direction);
    var n := |fetched|;
    forall i, j | 0 <= i < j < n
      ensures KeyLess(MismatchKey(page[i]), MismatchKey(page[j]))
    {
      if direction == Previous {
        assert Precedes(fetched[n - 1 - j], fetched[n - 1 - i], Previous);
      } else {
        assert Precedes(fetched[i], fetched[j], Next);
      }
    }
  }

  /** A page never holds more than `limit` records, holds only rows of the
      requested job, and holds only records strictly past the cursor: the
      cursor's own key never appears. */
  lemma PageWithinBounds(store: seq<Row>, req: Request, fetched: seq<Row>)
    requires IsFetch(store, req, fetched)
    ensures var page := GetMismatchPage(fetched, req.direction);
      && |page| <= req.limit
      && (forall i :: 0 <= i < |page| ==> RowOf(page[i]) in store && page[i].jobId == req.jobId)
      && (req.direction == Next ==>
            forall i :: 0 <= i < |page| ==> KeyLess(req.cursor, MismatchKey(page[i])))
      && (req.direction == Previous ==>
            forall i :: 0 <= i < |page| ==> KeyLess(MismatchKey(page[i]), req.cursor))
      && (forall i :: 0 <= i < |page| ==> MismatchKey(page[i]) != req.cursor)
  {
    var page := GetMismatchPage(fetched, req.direction);
    forall i | 0 <= i < |page|
      ensures RowOf(page[i]) in store && page[i].jobId == req.jobId
      ensures MismatchKey(page[i]) != req.cursor
    {
      var k := if req.direction == Next then i else |fetched| - 1 - i;
      assert page[i] == ToMismatch(fetched[k]);
      assert InRange(fetched[k], req);
      KeyLessIrreflexive(req.cursor);
    }
  }

  /** No row comes before itself, and no two rows precede each other. */
  lemma PrecedesAsymmetric(a: Row, b: Row, direction: Direction)
    ensures !Precedes(a, a, direction)
    ensures Precedes(a, b, direction) ==> !Precedes(b, a, direction)
  {
    KeyLessIrreflexive(RowKey(a));
    if Precedes(a, b, direction) {
      if direction == Next {
        KeyLessAsymmetric(RowKey(a), RowKey(b));
      } else {
        KeyLessAsymmetric(RowKey(b), RowKey(a));
      }
    }
  }

  /** The query contract leaves the database no choice: two results that both
      meet it for the same table and request are equal. */
  lemma FetchIsUnique(store: seq<Row>, req: Request, f1: seq<Row>, f2: seq<Row>)
    requires IsFetch(store, req, f1) && IsFetch(store, req, f2)
    ensures f1 == f2
  {
    var dir := req.direction;
    if exists k :: 0 <= k < |f1| && k < |f2| && f1[k] != f2[k] {
      var k :| 0 <= k < |f1| && k < |f2| && f1[k] != f2[k];
      FirstDifferenceIsImpossible(store, req, f1, f2, k);
      FirstDifferenceIsImpossible(store, req, f2, f1, k);
      PrecedesAsymmetric(f1[k], f2[k], dir);
    } else if |f1| < |f2| {
      NoProperPrefix(store, req, f1, f2);
    } else if |f2| < |f1| {
      NoProperPrefix(store, req, f2, f1);
    } else {
      assert forall k :: 0 <= k < |f1| ==> f1[k] == f2[k];
    }
  }

  /** If two results first differ at `k`, the row `f2[k]` would have to come
      after `f1[k]` in the sort order. */
  lemma FirstDifferenceIsImpossible(store: seq<Row>, req: Request, f1: seq<Row>, f2: seq<Row>, k: nat)
    requires IsFetch(store, req, f1) && IsFetch(store, req, f2)
    requires k < |f1| && k < |f2| && f1[k] != f2[k]
    ensures Precedes(f1[k], f2[k], req.direction)
    decreases k
  {
    var b := f2[k];
    assert InRange(b, req) && b in store;
    if b in f1 {
      var j :| 0 <= j < |f1| && f1[j] == b;
      if j < k {
        assert Precedes(f1[j], f1[k], req.direction);
        if f2[j] == f1[j] {
          assert Precedes(f2[j], f2[k], req.direction);
          PrecedesAsymmetric(b, b, req.direction);
        } else {
          FirstDifferenceIsImpossible(store, req, f1, f2, j);
          FirstDifferenceIsImpossible(store, req, f2, f1, j);
          PrecedesAsymmetric(f1[j], f2[j], req.direction);
        }
      } else {
        assert j != k;
        assert Precedes(f1[k], f1[j], req.direction);
      }
    } else {
      assert Precedes(f1[k], b, req.direction);
    }
  }

  /** One result cannot be a proper prefix of another: the extra row would
      either repeat an earlier one or have been left out of a page that was
      not full. */
  lemma NoProperPrefix(store: seq<Row>, req: Request, f1: seq<Row>, f2: seq<Row>)
    requires IsFetch(store, req, f1) && IsFetch(store, req, f2)
    requires |f1| <= |f2|
    requires forall k :: 0 <= k < |f1| ==> f1[k] == f2[k]
    ensures |f2| == |f1|
  {
    if |f1| == |f2| {
      return;
    }
    var b := f2[|f1|];
    assert InRange(b, req) && b in store;
    if b in f1 {
      var j :| 0 <= j < |f1| && f1[j] == b;
      assert Precedes(f2[j], f2[|f1|], req.direction);
      PrecedesAsymmetric(b, b, req.direction);
    }
  }

  /** Within one job the key identifies a row: no two distinct rows of a job
      share collection, granule and key path. */
  predicate UniqueKeys(store: seq<Row>) {
    forall a, b :: a in store && b in store && a.jobId == b.jobId && RowKey(a) == RowKey(b) ==> a == b
  }

  lemma PrecedesTransitive(a: Row, b: Row, c: Row, direction: Direction)
    requires Precedes(a, b, direction) && Precedes(b, c, direction)
    ensures Precedes(a, c, direction)
  {
    if direction == Next {
      KeyLessTransitive(RowKey(a), RowKey(b), RowKey(c));
    } else {
      KeyLessTransitive(RowKey(c), RowKey(b), RowKey(a));
    }
  }

  lemma PrecedesTotal(a: Row, b: Row, direction: Direction)
    requires RowKey(a) != RowKey(b)
    ensures Precedes(a, b, direction) || Precedes(b, a, direction)
  {
    KeyLessTrichotomy(RowKey(a), RowKey(b));
  }

  /** The rows of `rows` in range of `req` and not yet in `fetched`. */
  function Pending(rows: seq<Row>, req: Request, fetched: seq<Row>): (p: seq<Row>)
    ensures forall r :: r in p <==> r in rows && InRange(r, req) && r !in fetched
  {
    if |rows| == 0 then []
    else if InRange(rows[0], req) && rows[0] !in fetched then [rows[0]] + Pending(rows[1..], req, fetched)
    else Pending(rows[1..], req, fetched)
  }

  /** Among rows with distinct keys, one comes before all the others. */
  lemma {:induction false} NearestOf(p: seq<Row>, direction: Direction) returns (m: Row)
    requires |p| > 0
    requires forall a, b :: a in p && b in p && RowKey(a) == RowKey(b) ==> a == b
    ensures m in p
    ensures forall r :: r in p && r != m ==> Precedes(m, r, direction)
    decreases |p|
  {
    var tail := p[1..];
    assert p == [p[0]] + tail;
    if |tail| == 0 {
      m := p[0];
    } else {
      var m' := NearestOf(tail, direction);
      if p[0] != m' {
        PrecedesTotal(p[0], m', direction);
      }
      if p[0] != m' && Precedes(p[0], m', direction) {
        m := p[0];
        forall r | r in p && r != m
          ensures Precedes(m, r, direction)
        {
          if r != m' {
            PrecedesTransitive(p[0], m', r, direction);
          }
        }
      } else {
        m := m';
      }
    }
  }

  /** With keys unique within a job, the query contract can always be met:
      some result satisfies it for every table and every request. */
  lemma {:induction false} FetchExists(store: seq<Row>, req: Request) returns (f: seq<Row>)
    requires UniqueKeys(store)
    ensures IsFetch(store, req, f)
    decreases req.limit
  {
    if req.limit == 0 {
      f := [];
    } else {
      var f0 := FetchExists(store, req.(limit := req.limit - 1));
      var p := Pending(store, req, f0);
      if |f0| < req.limit - 1 || |p| == 0 {
        f := f0;
      } else {
        var m := NearestOf(p, req.direction);
        f := f0 + [m];
        assert f[|f0|] == m;
        forall i | 0 <= i < |f|
          ensures f[i] in store && InRange(f[i], req)
        {
          if i < |f0| {
            assert f[i] == f0[i];
          }
        }
        forall i, j | 0 <= i < j < |f|
          ensures Precedes(f[i], f[j], req.direction)
        {
          assert f[i] == f0[i];
          if j < |f0| {
            assert f[j] == f0[j];
          }
        }
        forall r | r in store && InRange(r, req) && r !in f
          ensures forall i :: 0 <= i < |f| ==> Precedes(f[i], r, req.direction)
        {
          assert r in p;
          forall i | 0 <= i < |f|
            ensures Precedes(f[i], r, req.direction)
          {
            if i < |f0| {
              assert f[i] == f0[i];
            }
          }
        }
      }
    }
  }

  /** Paging forward from the key of the job's last row yields an empty page. */
  lemma NextAfterLastRowIsEmpty(store: seq<Row>, req: Request, fetched: seq<Row>, last: Row)
    requires last in store && last.jobId == req.jobId
    requires forall r :: r in store && r.jobId == req.jobId ==> !KeyLess(RowKey(last), RowKey(r))
    requires req.direction == Next && req.cursor == RowKey(last)
    requires IsFetch(store, req, fetched)
    ensures GetMismatchPage(fetched, req.direction) == []
  {
  }

  /** Paging backward from the key of the job's first row yields an empty page. */
  lemma PreviousBeforeFirstRowIsEmpty(store: seq<Row>, req: Request, fetched: seq<Row>, first: Row)
    requires first in store && first.jobId == req.jobId
    requires forall r :: r in store && r.jobId == req.jobId ==> !KeyLess(RowKey(r), RowKey(first))
    requires req.direction == Previous && req.cursor == RowKey(first)
    requires IsFetch(store, req, fetched)
    ensures GetMismatchPage(fetched, req.direction) == []
  {
  }

  /** A mismatch row with the given job and key and a fixed payload. */
  function ExampleRow(jobId: int, collectionId: string, granuleId: string, keyPath: string): Row {
    Row(jobId, collectionId, granuleId, "file", keyPath, "archive", "etag", "etag", 0, 0, 1, 2,
        "GLACIER", "STANDARD", "different_size", Results.None)
  }

  /** Job 42 holds the keys (A,1,k1) < (A,1,k2) < (A,2,k1) < (B,1,k1);
      job 7 holds one more row. */
  function ExampleStore(): seq<Row> {
    [ExampleRow(42, "B", "1", "k1"), ExampleRow(42, "A", "1", "k1"), ExampleRow(7, "A", "1", "k0"),
     ExampleRow(42, "A", "2", "k1"), ExampleRow(42, "A", "1", "k2")]
  }

  lemma ExampleKeyOrder()
    ensures StrLess("A", "B") && StrLess("1", "2") && StrLess("k1", "k2")
    ensures !StrLess("A", "A") && !StrLess("1", "1") && !StrLess("k1", "k1") && !StrLess("k2", "k2")
  {
    assert "1"[1..] == "" && "k1"[1..] == "1" && "k2"[1..] == "2";
    StrLessIrreflexive("A");
    StrLessIrreflexive("1");
    StrLessIrreflexive("k1");
    StrLessIrreflexive("k2");
  }

  /** With a limit of 2, the first forward page of job 42 is (A,1,k1),
      (A,1,k2), and no other result meets the query contract. */
  lemma WorkedExampleFirstPage()
    ensures forall f :: IsFetch(ExampleStore(), Request(42, EmptyKey, Next, 2), f)
              <==> f == [ExampleRow(42, "A", "1", "k1"), ExampleRow(42, "A", "1", "k2")]
  {
    var q := Request(42, EmptyKey, Next, 2);
    var page := [ExampleRow(42, "A", "1", "k1"), ExampleRow(42, "A", "1", "k2")];
    ExampleKeyOrder();
    assert IsFetch(ExampleStore(), q, page);
    forall f ensures IsFetch(ExampleStore(), q, f) <==> f == page {
      if IsFetch(ExampleStore(), q, f) { FetchIsUnique(ExampleStore(), q, f, page); }
    }
  }

  /** The page after (A,1,k2) is (A,2,k1), (B,1,k1). */
  lemma WorkedExampleSecondPage()
    ensures forall f :: IsFetch(ExampleStore(), Request(42, Key("A", "1", "k2"), Next, 2), f)
              <==> f == [ExampleRow(42, "A", "2", "k1"), ExampleRow(42, "B", "1", "k1")]
  {
    var q := Request(42, Key("A", "1", "k2"), Next, 2);
    var page := [ExampleRow(42, "A", "2", "k1"), ExampleRow(42, "B", "1", "k1")];
    ExampleKeyOrder();
    assert IsFetch(ExampleStore(), q, page);
    forall f ensures IsFetch(ExampleStore(), q, f) <==> f == page {
      if IsFetch(ExampleStore(), q, f) { FetchIsUnique(ExampleStore(), q, f, page); }
    }
  }

  /** The page before (B,1,k1) is fetched as (A,2,k1), (A,1,k2) and returned
      as (A,1,k2), (A,2,k1): the cursor's own row is not on it. */
  lemma WorkedExamplePreviousPage()
    ensures forall f :: IsFetch(ExampleStore(), Request(42, Key("B", "1", "k1"), Previous, 2), f)
              <==> f == [ExampleRow(42, "A", "2", "k1"), ExampleRow(42, "A", "1", "k2")]
    ensures GetMismatchPage([ExampleRow(42, "A", "2", "k1"), ExampleRow(42, "A", "1", "k2")], Previous)
              == [ToMismatch(ExampleRow(42, "A", "1", "k2")), ToMismatch(ExampleRow(42, "A", "2", "k1"))]
  {
    var q := Request(42, Key("B", "1", "k1"), Previous, 2);
    var fetched := [ExampleRow(42, "A", "2", "k1"), ExampleRow(42, "A", "1", "k2")];
    ExampleKeyOrder();
    assert IsFetch(ExampleStore(), q, fetched);
    forall f ensures IsFetch(ExampleStore(), q, f) <==> f == fetched {
      if IsFetch(ExampleStore(), q, f) { FetchIsUnique(ExampleStore(), q, f, fetched); }
    }
  }

  // ---------------------------------------------------------------------
  // Walking forward page by page

  /** The request for the page after a non-empty page: same job and page size,
      direction `Next`, cursor taken from the page's last record. */
  function FollowingRequest(page: seq<Mismatch>, limit: nat): (req: Request)
    requires |page| > 0
    ensures req.direction == Next && req.limit == limit
    ensures req.jobId == page[|page| - 1].jobId && req.cursor == MismatchKey(page[|page| - 1])
  {
    var c := MismatchCursor(page[|page| - 1]);
    Request(c.jobId, CursorKey(c), Next, limit)
  }

  /** `fetches` are the query results of a forward walk that starts with `req`:
      each further request continues from the previous page's last record,
      and the walk stops at the first empty page. */
  ghost predicate IsForwardWalk(store: seq<Row>, req: Request, fetches: seq<seq<Row>>)
    decreases |fetches|
  {
    && |fetches| > 0
    && req.direction == Next
    && IsFetch(store, req, fetches[0])
    && if |fetches[0]| == 0 then |fetches| == 1
       else IsForwardWalk(store, FollowingRequest(GetMismatchPage(fetches[0], Next), req.limit), fetches[1..])
  }

  /** Everything the caller receives during a walk, page after page. */
  function WalkPages(fetches: seq<seq<Row>>): seq<Mismatch>
  {
    if |fetches| == 0 then [] else GetMismatchPage(fetches[0], Next) + WalkPages(fetches[1..])
  }

  /** Two ascending pages joined at a pivot key, the first at or below it
      and the second strictly above it, form an ascending sequence. */
  lemma AscendingConcat(a: seq<Mismatch>, b: seq<Mismatch>, pivot: Key)
    requires StrictlyAscending(a) && StrictlyAscending(b)
    requires forall i :: 0 <= i < |a| ==> MismatchKey(a[i]) == pivot || KeyLess(MismatchKey(a[i]), pivot)
    requires forall j :: 0 <= j < |b| ==> KeyLess(pivot, MismatchKey(b[j]))
    ensures StrictlyAscending(a + b)
  {
    var ab := a + b;
    forall i, j | 0 <= i < j < |ab|
      ensures KeyLess(MismatchKey(ab[i]), MismatchKey(ab[j]))
    {
      if j < |a| {
        assert ab[i] == a[i] && ab[j] == a[j];
      } else if i >= |a| {
        assert ab[i] == b[i - |a|] && ab[j] == b[j - |a|];
      } else {
        assert ab[i] == a[i] && ab[j] == b[j - |a|];
        if MismatchKey(a[i]) != pivot {
          KeyLessTransitive(MismatchKey(a[i]), pivot, MismatchKey(b[j - |a|]));
        }
      }
    }
  }

  /** An empty answer to a request with a positive limit means no row of the
      table is in range. */
  lemma EmptyFetchMeansNothingInRange(store: seq<Row>, req: Request, r: Row)
    requires req.limit > 0 && IsFetch(store, req, [])
    requires r in store
    ensures !InRange(r, req)
  {
    assert r !in [];
  }

  /** Every row of a forward page is at or below the page's last key, and
      strictly past the request's cursor. */
  lemma ForwardPageUpToLast(store: seq<Row>, req: Request, f: seq<Row>)
    requires req.direction == Next && |f| > 0
    requires AllInRange(store, req, f) && SortedFor(f, Next)
    ensures forall i :: 0 <= i < |f| ==>
      && KeyLess(req.cursor, RowKey(f[i]))
      && (RowKey(f[i]) == RowKey(f[|f| - 1]) || KeyLess(RowKey(f[i]), RowKey(f[|f| - 1])))
  {
    forall i | 0 <= i < |f|
      ensures KeyLess(req.cursor, RowKey(f[i]))
      ensures RowKey(f[i]) == RowKey(f[|f| - 1]) || KeyLess(RowKey(f[i]), RowKey(f[|f| - 1]))
    {
      assert InRange(f[i], req);
      if i < |f| - 1 {
        assert Precedes(f[i], f[|f| - 1], Next);
      }
    }
  }

  /** A row in range of a forward request that the page left out lies past
      the page's last key, so the following request covers it. */
  lemma LeftOutRowIsInFollowingRange(store: seq<Row>, req: Request, f: seq<Row>, r: Row)
    requires req.direction == Next && |f| > 0
    requires NearestFirst(store, req, f)
    requires r in store && InRange(r, req) && r !in f
    ensures KeyLess(RowKey(f[|f| - 1]), RowKey(r))
  {
    assert Precedes(f[|f| - 1], r, Next);
  }

  /** A forward walk with a positive page size over a table whose keys are
      unique within a job returns every row of the job that lies past the
      starting cursor, each once, in ascending order, and nothing else. */
  lemma {:induction false} ForwardWalkComplete(store: seq<Row>, req: Request, fetches: seq<seq<Row>>)
    requires UniqueKeys(store) && req.limit > 0
    requires IsForwardWalk(store, req, fetches)
    ensures StrictlyAscending(WalkPages(fetches))
    ensures forall r :: r in store && InRange(r, req) ==> ToMismatch(r) in WalkPages(fetches)
    ensures forall m :: m in WalkPages(fetches) ==> RowOf(m) in store && InRange(RowOf(m), req)
    decreases |fetches|
  {
    var f := fetches[0];
    var page := GetMismatchPage(f, Next);
    if |f| == 0 {
      assert fetches == [f];
      assert WalkPages(fetches) == [];
      forall r | r in store && InRange(r, req)
        ensures false
      {
        EmptyFetchMeansNothingInRange(store, req, r);
      }
    } else {
      var last := f[|f| - 1];
      var next := FollowingRequest(page, req.limit);
      assert page[|f| - 1] == ToMismatch(last);
      assert next.jobId == req.jobId && next.cursor == RowKey(last) by {
        assert InRange(last, req);
      }
      ForwardWalkComplete(store, next, fetches[1..]);
      var rest := WalkPages(fetches[1..]);
      assert WalkPages(fetches) == page + rest;
      ForwardPageUpToLast(store, req, f);
      SortedPageIsAscending(f, Next);
      forall j | 0 <= j < |rest|
        ensures KeyLess(next.cursor, MismatchKey(rest[j]))
      {
        assert rest[j] in rest;
        assert InRange(RowOf(rest[j]), next);
      }
      AscendingConcat(page, rest, next.cursor);
      forall r | r in store && InRange(r, req)
        ensures ToMismatch(r) in page + rest
      {
        if r in f {
          var k :| 0 <= k < |f| && f[k] == r;
          assert page[k] == ToMismatch(r);
        } else {
          LeftOutRowIsInFollowingRange(store, req, f, r);
          assert InRange(r, next);
        }
      }
      forall m | m in page + rest
        ensures RowOf(m) in store && InRange(RowOf(m), req)
      {
        if m in page {
          var k :| 0 <= k < |page| && page[k] == m;
          assert RowOf(m) == f[k];
          assert InRange(f[k], req);
        } else {
          assert InRange(RowOf(m), next);
          KeyLessTransitive(req.cursor, next.cursor, RowKey(RowOf(m)));
        }
      }
    }
  }

  /** Paging forward from the empty cursor visits every row of the job, each
      once, in ascending order, provided no row has all three key fields
      empty (such a row equals the empty cursor and is never strictly past it). */
  lemma ForwardWalkFromStartVisitsJob(store: seq<Row>, req: Request, fetches: seq<seq<Row>>)
    requires UniqueKeys(store) && req.limit > 0 && req.cursor == EmptyKey
    requires IsForwardWalk(store, req, fetches)
    requires forall r :: r in store && r.jobId == req.jobId ==> RowKey(r) != EmptyKey
    ensures StrictlyAscending(WalkPages(fetches))
    ensures forall r :: r in store && r.jobId == req.jobId ==> ToMismatch(r) in WalkPages(fetches)
    ensures forall m :: m in WalkPages(fetches) ==> RowOf(m) in store && m.jobId == req.jobId
  {
    ForwardWalkComplete(store, req, fetches);
    forall r | r in store && r.jobId == req.jobId
      ensures ToMismatch(r) in WalkPages(fetches)
    {
      EmptyKeyIsLeast(RowKey(r));
      assert InRange(r, req);
    }
  }

  /** The rows of the table within the range of `req`. */
  function RowsInRange(store: seq<Row>, req: Request): set<Row> {
    set r | r in store && InRange(r, req)
  }

  /** Paging forward always ends: over a table whose keys are unique within
      a job, a forward walk with a positive page size exists, and it takes
      at most one request per row in range plus the final empty page. */
  lemma {:induction false} WalkExists(store: seq<Row>, req: Request) returns (fetches: seq<seq<Row>>)
    requires UniqueKeys(store) && req.limit > 0 && req.direction == Next
    ensures IsForwardWalk(store, req, fetches)
    ensures |fetches| <= |RowsInRange(store, req)| + 1
    decreases |RowsInRange(store, req)|
  {
    var f := FetchExists(store, req);
    if |f| == 0 {
      fetches := [f];
    } else {
      var last := f[|f| - 1];
      var page := GetMismatchPage(f, Next);
      var next := FollowingRequest(page, req.limit);
      assert page[|f| - 1] == ToMismatch(last);
      assert last in store && InRange(last, req);
      assert next.jobId == req.jobId && next.cursor == RowKey(last);
      var before := RowsInRange(store, req);
      var after := RowsInRange(store, next);
      forall r | r in after
        ensures r in before
      {
        KeyLessTransitive(req.cursor, RowKey(last), RowKey(r));
      }
      KeyLessIrreflexive(RowKey(last));
      assert last in before - after;
      assert before == after + (before - after);
      assert |before| == |after| + |before - after|;
      var rest := WalkExists(store, next);
      fetches := [f] + rest;
      assert fetches[0] == f && fetches[1..] == rest;
    }
  }
}
