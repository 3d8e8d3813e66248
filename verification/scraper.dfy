/** The scraper's main loop: for every search key not yet in the store, ask
    the server for the hit count, walk the result pages in steps of 15,
    flatten each page's addresses into rows with predicted ids, insert them
    under the table's constraints, and commit once per key. The store is
    the `telefonbuch_scrape` table as a sequence of rows in insertion order;
    the server is a function from the request's parameters to the replies
    to its successive attempts. */
module Scraper {
  import opened Common
  import opened Xml
  import opened Schema
  import opened QueryKeys
  import opened SearchClient
  import opened Flatten

  /** One row of `telefonbuch_scrape`. */
  datatype StoreRow = StoreRow(
    id: int, parentId: Option<int>,
    queryName: string, queryOffset: int, queryChildNum: nat,
    fields: seq<Option<string>>)

  /** A search request: the session, the key and the page offset. Its URL's
      query string carries `SearchParams(sessionId, key, offset)`. */
  datatype Request = Request(sessionId: nat, key: string, offset: nat)
  {
    function Params(): seq<(string, string)>
    {
      SearchParams(sessionId, key, offset)
    }
  }

  /** `server(request)(attempt)` is the reply to the attempt-th sending of
      `request`. */
  type Server = Request -> (nat -> Response)

  datatype ScrapeError =
    | Fetch(cause: FetchError)             // a failed `get_sessionid` or `get_search_results`
    | PageSizeMismatch(actual: nat)        // the `perpage` assertion
    | Constraint(row: StoreRow)            // `sqlite3.IntegrityError` on insert
    | Malformed                            // `lxml.etree.XMLSyntaxError` on a page body

  // ---------------------------------------------------------------- the table

  /** `SELECT COALESCE(MAX(id), 0) FROM telefonbuch_scrape` */
  function MaxId(rows: seq<StoreRow>): int
  {
    if |rows| == 0 then 0
    else if |rows| == 1 then rows[0].id
    else
      var m := MaxId(rows[1..]);
      if rows[0].id >= m then rows[0].id else m
  }

  /** `MAX(id)` bounds every id and is one of them; an empty table gives 0. */
  lemma {:induction false} MaxIdIsMax(rows: seq<StoreRow>)
    ensures |rows| == 0 ==> MaxId(rows) == 0
    ensures forall k :: 0 <= k < |rows| ==> rows[k].id <= MaxId(rows)
    ensures |rows| > 0 ==> exists k :: 0 <= k < |rows| && rows[k].id == MaxId(rows)
  {
    if |rows| > 1 {
      MaxIdIsMax(rows[1..]);
      assert forall k :: 1 <= k < |rows| ==> rows[k] == rows[1..][k - 1];
      if rows[0].id < MaxId(rows[1..]) {
        var k :| 0 <= k < |rows[1..]| && rows[1..][k].id == MaxId(rows[1..]);
        assert rows[k + 1].id == MaxId(rows);
      } else {
        assert rows[0].id == MaxId(rows);
      }
    } else if |rows| == 1 {
      assert rows[0].id == MaxId(rows);
    }
  }

  /** `SELECT 1 FROM telefonbuch_scrape WHERE query_name = ?` finds a row. */
  predicate HasKey(rows: seq<StoreRow>, key: string)
  {
    exists k :: 0 <= k < |rows| && rows[k].queryName == key
  }

  /** Two rows that the table cannot hold together: the same `id` (the
      primary key) or the same `(query_name, query_offset, query_child_num)`
      (the unique index). */
  predicate Clash(a: StoreRow, b: StoreRow)
  {
    a.id == b.id
    || (a.queryName == b.queryName && a.queryOffset == b.queryOffset
        && a.queryChildNum == b.queryChildNum)
  }

  /** The table's constraints hold. */
  predicate Consistent(rows: seq<StoreRow>)
  {
    forall i, j :: 0 <= i < j < |rows| ==> !Clash(rows[i], rows[j])
  }

  /** `executemany(INSERT …)`: rows go in one by one and the first row that
      clashes with a row already present raises. */
  function InsertAll(present: seq<StoreRow>, rows: seq<StoreRow>): Result<seq<StoreRow>, ScrapeError>
    decreases |rows|
  {
    if |rows| == 0 then Ok(present)
    else if exists j :: 0 <= j < |present| && Clash(present[j], rows[0]) then Err(Constraint(rows[0]))
    else InsertAll(present + [rows[0]], rows[1..])
  }

  /** An insert that succeeds appends the rows; on a consistent table it
      succeeds exactly when the result is consistent. */
  lemma {:induction false} InsertAllMeaning(present: seq<StoreRow>, rows: seq<StoreRow>)
    requires Consistent(present)
    ensures InsertAll(present, rows).Ok? <==> Consistent(present + rows)
    ensures InsertAll(present, rows).Ok? ==> InsertAll(present, rows).value == present + rows
    decreases |rows|
  {
    if |rows| > 0 {
      var p1 := present + [rows[0]];
      assert p1 + rows[1..] == present + rows;
      if exists j :: 0 <= j < |present| && Clash(present[j], rows[0]) {
        var j :| 0 <= j < |present| && Clash(present[j], rows[0]);
        assert (present + rows)[j] == present[j] && (present + rows)[|present|] == rows[0];
      } else {
        assert Consistent(p1);
        InsertAllMeaning(p1, rows[1..]);
      }
    }
  }

  /** Each row's parent, if any, is a row inserted before it: the
      `FOREIGN KEY (parent_id)` the table declares but SQLite does not
      enforce. */
  predicate ParentsBefore(rows: seq<StoreRow>)
  {
    forall k :: 0 <= k < |rows| && rows[k].parentId.Some? ==>
      exists j :: 0 <= j < k && rows[j].id == rows[k].parentId.value
  }

  // ---------------------------------------------------------------- one page

  /** `range(0, num_results + 1, results_per_page)`: pages of 15 from
      offset 0, each 15 past the one before, the last one the page that
      holds hit number `hits` (counting from 0). */
  function PageOffsets(hits: nat): (r: seq<nat>)
    ensures |r| > 0 && r[0] == 0
    ensures forall k :: 0 <= k < |r| - 1 ==> r[k + 1] == r[k] + PageSize
    ensures r[|r| - 1] <= hits < r[|r| - 1] + PageSize
  {
    var last := hits / PageSize;
    assert last * PageSize <= hits < last * PageSize + PageSize;
    seq(last + 1, k requires 0 <= k <= last => k * PageSize)
  }

  /** The offsets are exactly the multiples of 15 up to the hit count. */
  lemma PageOffsetsMembers(hits: nat)
    ensures forall o: nat :: o in PageOffsets(hits) <==> o % PageSize == 0 && o <= hits
  {
    var r := PageOffsets(hits);
    forall o: nat | o % PageSize == 0 && o <= hits
      ensures o in r
    {
      assert r[o / PageSize] == o;
    }
  }

  /** The `perpage` assertion: a page that states its size must state 15. */
  predicate PageSizeOk(resp: Response)
  {
    match SearchTagNumber(resp.body, "perpage")
    case None => true
    case Some(n) => n == PageSize
  }

  /** A page's rows as inserted: the flattened addresses of
      `.//entries/address` with ids from `next`, tagged with the key and the
      offset/child number the numbering loop gives them. */
  function PageRows(key: string, offset: nat, doc: Element, names: seq<string>, next: int): seq<StoreRow>
  {
    var flat := FlattenPage(EntryAddresses(doc), names, next);
    var nums := NumberPage(flat, offset);
    seq(|flat|, k requires 0 <= k < |flat| =>
      StoreRow(flat[k].id, flat[k].parentId, key, nums[k].0, nums[k].1, flat[k].fields))
  }

  /** What a page's rows look like: ids count up from `next`, every parent
      is an earlier row of the page, all rows carry the key, the top-level
      rows are numbered from the page's offset, and no two rows clash. */
  lemma PageRowsFacts(key: string, offset: nat, doc: Element, names: seq<string>, next: int, r: seq<StoreRow>)
    requires r == PageRows(key, offset, doc, names, next)
    ensures |r| == |FlattenPage(EntryAddresses(doc), names, next)|
    ensures forall k :: 0 <= k < |r| ==> r[k].id == next + k && r[k].queryName == key
    ensures forall k :: 0 <= k < |r| && r[k].parentId.Some? ==> next <= r[k].parentId.value < next + k
    ensures forall k :: 0 <= k < |r| ==> r[k].queryOffset >= offset
    ensures Consistent(r)
  {
    var flat := FlattenPage(EntryAddresses(doc), names, next);
    var nums := NumberPage(flat, offset);
    assert forall k :: 0 <= k < |r| ==> r[k].queryOffset == nums[k].0 && AtOrAfter(nums[k], offset, 0);
  }

  // ---------------------------------------------------------------- one key

  /** The fixed context of one key's scrape. */
  datatype Job = Job(sessionId: nat, key: string, names: seq<string>, server: Server)

  function RequestFor(job: Job, offset: nat): Request
  {
    Request(job.sessionId, job.key, offset)
  }

  /** The requests one step made and how it ended: the rows to commit, or
      the error that aborts the program. */
  datatype Outcome = Outcome(requests: seq<Request>, result: Result<seq<StoreRow>, ScrapeError>)

  /** The hit count and response of page `i`: page 0 reuses the response
      that gave the hit count, later pages are fetched. */
  function FetchPage(job: Job, plan: seq<nat>, first: Response, fetch: Fetcher, i: nat): Result<(nat, Response), FetchError>
    requires i < |plan|
  {
    if i == 0 then Ok((0, first)) else fetch(RequestFor(job, plan[i]))
  }

  /** `get_search_results` for a request, as the page loop sees it. */
  type Fetcher = Request -> Result<(nat, Response), FetchError>

  /** The scraper's fetch: the poll loop against the server. */
  function FetcherOf(job: Job): Fetcher
  {
    req => GetSearchResults(job.server(req))
  }

  /** The body of the page loop for one fetched page: check the page size,
      parse the body, predict the ids from `MAX(id) + 1`, flatten and number
      the addresses, and insert them. */
  function PageStep(job: Job, committed: seq<StoreRow>, pending: seq<StoreRow>,
                    offset: nat, resp: Response): Result<seq<StoreRow>, ScrapeError>
  {
    if !PageSizeOk(resp) then Err(PageSizeMismatch(SearchTagNumber(resp.body, "perpage").value))
    else if resp.doc.None? then Err(Malformed)
    else
      var rows := PageRows(job.key, offset, resp.doc.value, job.names, MaxId(committed + pending) + 1);
      match InsertAll(committed + pending, rows)
      case Err(e) => Err(e)
      case Ok(_) => Ok(rows)
  }

  /** The page body as the page loop sees it: from the rows the key has
      inserted so far, the page offset and the page's response, the page's
      rows or the error that aborts the key. */
  type PageBody = (seq<StoreRow>, nat, Response) -> Result<seq<StoreRow>, ScrapeError>

  /** The scraper's page body for one key against the committed table. */
  function PageBodyOf(job: Job, committed: seq<StoreRow>): PageBody
  {
    (pending, offset: nat, resp) => PageStep(job, committed, pending, offset, resp)
  }

  /** The page loop from page `i` on. `pending` holds the rows this key has
      inserted so far, visible to `MAX(id)` though not yet committed; the
      loop stops at the first failed fetch or page. */
  function ScrapePages(job: Job, plan: seq<nat>, first: Response, fetch: Fetcher, body: PageBody,
                       i: nat, pending: seq<StoreRow>): Outcome
    requires i <= |plan|
    decreases |plan| - i
  {
    if i == |plan| then Outcome([], Ok(pending))
    else
      var reqs := if i == 0 then [] else [RequestFor(job, plan[i])];
      var fetched := FetchPage(job, plan, first, fetch, i);
      if fetched.Err? then Outcome(reqs, Err(Fetch(fetched.error)))
      else
        var step := body(pending, plan[i], fetched.value.1);
        if step.Err? then Outcome(reqs, Err(step.error))
        else
          var rest := ScrapePages(job, plan, first, fetch, body, i + 1, pending + step.value);
          Outcome(reqs + rest.requests, rest.result)
  }

  /** One iteration of the key loop: skip a key the store already has,
      otherwise fetch the first page, skip a key without hits, and walk the
      pages `range(0, hits + 1, 15)` fixed by the first hit count. */
  function ScrapeKey(job: Job, committed: seq<StoreRow>): Outcome
  {
    if HasKey(committed, job.key) then Outcome([], Ok([]))
    else
      var req := RequestFor(job, 0);
      match GetSearchResults(job.server(req))
      case Err(e) => Outcome([req], Err(Fetch(e)))
      case Ok(found) =>
        if found.0 == 0 then Outcome([req], Ok([]))
        else
          var o := ScrapePages(job, PageOffsets(found.0), found.1, FetcherOf(job), PageBodyOf(job, committed), 0, []);
          Outcome([req] + o.requests, o.result)
  }

  /** A key already in the store is skipped before any request is sent. */
  lemma ScrapeKeyResumes(job: Job, committed: seq<StoreRow>)
    requires HasKey(committed, job.key)
    ensures ScrapeKey(job, committed) == Outcome([], Ok([]))
  {
  }

  /** A key whose first search reports no hits sends exactly that one
      request and adds nothing. */
  lemma ScrapeKeyNoHits(job: Job, committed: seq<StoreRow>, resp: Response)
    requires !HasKey(committed, job.key)
    requires GetSearchResults(job.server(RequestFor(job, 0))) == Ok((0, resp))
    ensures ScrapeKey(job, committed) == Outcome([RequestFor(job, 0)], Ok([]))
  {
  }

  /** The requests of pages `i ..` in plan order, page 0 excluded. */
  function PlanRequests(job: Job, plan: seq<nat>, i: nat): (r: seq<Request>)
    requires i <= |plan|
    decreases |plan| - i
  {
    if i == |plan| then []
    else (if i == 0 then [] else [RequestFor(job, plan[i])]) + PlanRequests(job, plan, i + 1)
  }

  /** The invariant of the page loop over `pending`: ids count up from
      `MAX(id) + 1` of the committed table, parents are earlier pending rows,
      every row carries the key, and the table plus pending is consistent. */
  predicate PendingOk(job: Job, committed: seq<StoreRow>, pending: seq<StoreRow>)
  {
    && (forall k :: 0 <= k < |pending| ==> pending[k].id == MaxId(committed) + 1 + k)
    && (forall k :: 0 <= k < |pending| && pending[k].parentId.Some? ==>
          MaxId(committed) + 1 <= pending[k].parentId.value < pending[k].id)
    && (forall k :: 0 <= k < |pending| ==> pending[k].queryName == job.key)
    && Consistent(committed + pending)
  }

  /** With ids counting up from `MAX(id) + 1`, the next `MAX(id)` is the
      last pending id. */
  lemma MaxIdPending(committed: seq<StoreRow>, pending: seq<StoreRow>)
    requires forall k :: 0 <= k < |pending| ==> pending[k].id == MaxId(committed) + 1 + k
    ensures MaxId(committed + pending) == MaxId(committed) + |pending|
  {
    var all := committed + pending;
    var m := MaxId(committed) + |pending|;
    MaxIdIsMax(committed);
    MaxIdIsMax(all);
    if |pending| > 0 {
      assert all[|all| - 1].id == m;
      assert forall k :: 0 <= k < |all| ==> all[k].id <= m by {
        forall k | 0 <= k < |all| ensures all[k].id <= m {
          if k < |committed| {
            assert all[k] == committed[k];
          } else {
            assert all[k] == pending[k - |committed|];
          }
        }
      }
    } else {
      assert all == committed;
    }
  }

  /** On a consistent table a page fails exactly when it states a page size
      other than 15, its body is not well-formed XML, or its rows clash
      with the table; the size check comes first and the parse second, and
      otherwise the page's rows are inserted as numbered. */
  lemma PageStepOutcome(job: Job, committed: seq<StoreRow>, pending: seq<StoreRow>, offset: nat, resp: Response)
    requires Consistent(committed + pending)
    ensures var step := PageStep(job, committed, pending, offset, resp);
      && (step.Err? <==>
            (|| !PageSizeOk(resp)
             || resp.doc.None?
             || !Consistent(committed + pending
                  + PageRows(job.key, offset, resp.doc.value, job.names, MaxId(committed + pending) + 1))))
      && (!PageSizeOk(resp) ==> step.Err? && step.error.PageSizeMismatch? && step.error.actual != PageSize)
      && (PageSizeOk(resp) && resp.doc.None? ==> step == Err(Malformed))
      && (step.Ok? ==> step.value == PageRows(job.key, offset, resp.doc.value, job.names, MaxId(committed + pending) + 1))
  {
    if PageSizeOk(resp) && resp.doc.Some? {
      InsertAllMeaning(committed + pending,
        PageRows(job.key, offset, resp.doc.value, job.names, MaxId(committed + pending) + 1));
    }
  }

  /** One page keeps the invariant. */
  lemma PageStepKeeps(job: Job, committed: seq<StoreRow>, pending: seq<StoreRow>, offset: nat, resp: Response)
    requires PendingOk(job, committed, pending)
    requires PageStep(job, committed, pending, offset, resp).Ok?
    ensures PendingOk(job, committed, pending + PageStep(job, committed, pending, offset, resp).value)
  {
    MaxIdPending(committed, pending);
    var next := MaxId(committed + pending) + 1;
    var rows := PageRows(job.key, offset, resp.doc.value, job.names, next);
    PageRowsFacts(job.key, offset, resp.doc.value, job.names, next, rows);
    InsertAllMeaning(committed + pending, rows);
    var p := pending + rows;
    ConcatAssoc(committed, pending, rows);
    forall k | 0 <= k < |p|
      ensures p[k].id == MaxId(committed) + 1 + k && p[k].queryName == job.key
      ensures p[k].parentId.Some? ==> MaxId(committed) + 1 <= p[k].parentId.value < p[k].id
    {
      if k >= |pending| {
        assert p[k] == rows[k - |pending|];
      } else {
        assert p[k] == pending[k];
      }
    }
  }

  lemma PrefixAppend<T>(a: seq<T>, b: seq<T>, c: seq<T>)
    requires b <= c
    ensures a + b <= a + c
  {
    assert forall k :: 0 <= k < |a + b| ==> (a + b)[k] == (a + c)[k];
  }

  /** The page loop sends the plan's requests in order: all of them when it
      succeeds, a prefix when it fails. */
  lemma {:induction false} ScrapePagesRequests(job: Job, plan: seq<nat>, first: Response, fetch: Fetcher, body: PageBody,
                                                i: nat, pending: seq<StoreRow>)
    requires i <= |plan|
    ensures var o := ScrapePages(job, plan, first, fetch, body, i, pending);
      && o.requests <= PlanRequests(job, plan, i)
      && (o.result.Ok? ==> o.requests == PlanRequests(job, plan, i))
    decreases |plan| - i
  {
    var o := ScrapePages(job, plan, first, fetch, body, i, pending);
    if i < |plan| {
      var reqs := if i == 0 then [] else [RequestFor(job, plan[i])];
      assert PlanRequests(job, plan, i) == reqs + PlanRequests(job, plan, i + 1);
      var fetched := FetchPage(job, plan, first, fetch, i);
      if fetched.Ok? {
        var step := body(pending, plan[i], fetched.value.1);
        if step.Ok? {
          var rest := ScrapePages(job, plan, first, fetch, body, i + 1, pending + step.value);
          assert o == Outcome(reqs + rest.requests, rest.result);
          ScrapePagesRequests(job, plan, first, fetch, body, i + 1, pending + step.value);
          PrefixAppend(reqs, rest.requests, PlanRequests(job, plan, i + 1));
          if rest.result.Ok? {
            assert o.requests == reqs + PlanRequests(job, plan, i + 1);
          }
        } else {
          assert o == Outcome(reqs, Err(step.error));
          PrefixAppend(reqs, [], PlanRequests(job, plan, i + 1));
        }
      } else {
        assert o == Outcome(reqs, Err(Fetch(fetched.error)));
        PrefixAppend(reqs, [], PlanRequests(job, plan, i + 1));
      }
    }
  }

  /** The rows the page loop returns extend `pending` and keep the
      invariant. */
  lemma {:induction false} ScrapePagesRows(job: Job, plan: seq<nat>, first: Response, fetch: Fetcher, committed: seq<StoreRow>,
                                            i: nat, pending: seq<StoreRow>)
    requires i <= |plan|
    requires PendingOk(job, committed, pending)
    ensures var o := ScrapePages(job, plan, first, fetch, PageBodyOf(job, committed), i, pending);
      o.result.Ok? ==> PendingOk(job, committed, o.result.value) && pending <= o.result.value
    decreases |plan| - i
  {
    var body := PageBodyOf(job, committed);
    var o := ScrapePages(job, plan, first, fetch, body, i, pending);
    if i == |plan| {
      assert o.result == Ok(pending);
    } else {
      var fetched := FetchPage(job, plan, first, fetch, i);
      if fetched.Ok? {
        var step := body(pending, plan[i], fetched.value.1);
        assert step == PageStep(job, committed, pending, plan[i], fetched.value.1);
        if step.Ok? {
          var rest := ScrapePages(job, plan, first, fetch, body, i + 1, pending + step.value);
          assert o.result == rest.result;
          PageStepKeeps(job, committed, pending, plan[i], fetched.value.1);
          ScrapePagesRows(job, plan, first, fetch, committed, i + 1, pending + step.value);
          if rest.result.Ok? {
            assert pending <= pending + step.value;
          }
        } else {
          assert o.result.Err?;
        }
      } else {
        assert o.result.Err?;
      }
    }
  }

  /** One search request per offset, in order. */
  function RequestsFor(job: Job, offsets: seq<nat>): (r: seq<Request>)
    ensures |r| == |offsets|
    ensures forall m :: 0 <= m < |r| ==> r[m] == RequestFor(job, offsets[m])
  {
    if |offsets| == 0 then [] else [RequestFor(job, offsets[0])] + RequestsFor(job, offsets[1..])
  }

  /** The loop requests pages `i ..` of the plan, one each, in order. */
  lemma {:induction false} PlanRequestsAll(job: Job, plan: seq<nat>, i: nat)
    requires 0 < i <= |plan|
    ensures PlanRequests(job, plan, i) == RequestsFor(job, plan[i..])
    decreases |plan| - i
  {
    if i < |plan| {
      PlanRequestsAll(job, plan, i + 1);
      assert plan[i..][1..] == plan[i + 1..];
    }
  }

  /** The rows a key adds count up from `MAX(id) + 1`, have their parents
      among earlier rows of the key, carry the key, and keep the table
      consistent. */
  lemma ScrapeKeyRows(job: Job, committed: seq<StoreRow>)
    requires Consistent(committed)
    ensures var o := ScrapeKey(job, committed);
      o.result.Ok? ==> PendingOk(job, committed, o.result.value)
  {
    assert committed + [] == committed;
    if !HasKey(committed, job.key) {
      var got := GetSearchResults(job.server(RequestFor(job, 0)));
      if got.Ok? && got.value.0 > 0 {
        ScrapePagesRows(job, PageOffsets(got.value.0), got.value.1, FetcherOf(job), committed, 0, []);
      }
    }
  }

  /** The search requests of a key that succeeds: one per offset of
      `range(0, hits + 1, 15)`, in order, where `hits` is the first reply's
      hit count. */
  lemma ScrapeKeyRequests(job: Job, committed: seq<StoreRow>, hits: nat, first: Response)
    requires !HasKey(committed, job.key)
    requires GetSearchResults(job.server(RequestFor(job, 0))) == Ok((hits, first))
    requires ScrapeKey(job, committed).result.Ok?
    ensures ScrapeKey(job, committed).requests == RequestsFor(job, PageOffsets(hits))
  {
    var plan := PageOffsets(hits);
    var reqs := RequestsFor(job, plan);
    assert reqs == [RequestFor(job, 0)] + RequestsFor(job, plan[1..]);
    if hits == 0 {
      assert |plan| == 1;
    } else {
      ScrapePagesRequests(job, plan, first, FetcherOf(job), PageBodyOf(job, committed), 0, []);
      PlanRequestsAll(job, plan, 1);
      assert PlanRequests(job, plan, 0) == PlanRequests(job, plan, 1);
    }
  }

  // ---------------------------------------------------------------- the run

  /** Where the key loop stopped: the committed store, every search request
      sent, and the error that ended the program, if any. */
  datatype RunState = RunState(store: seq<StoreRow>, requests: seq<Request>, error: Option<ScrapeError>)

  /** The key loop: each key's rows are committed when it finishes; an error
      ends the program, so the store stays as of the last commit. */
  function Run(sessionId: nat, names: seq<string>, server: Server, keys: seq<string>,
               store: seq<StoreRow>): RunState
  {
    if |keys| == 0 then RunState(store, [], None)
    else
      var o := ScrapeKey(Job(sessionId, keys[0], names, server), store);
      match o.result
      case Err(e) => RunState(store, o.requests, Some(e))
      case Ok(rows) =>
        var rest := Run(sessionId, names, server, keys[1..], store + rows);
        RunState(rest.store, o.requests + rest.requests, rest.error)
  }

  /** The whole program on a store: get the session, then walk every key of
      the two-letter alphabet with the 26 columns. */
  function Scrape(home: Response, server: Server, store: seq<StoreRow>): RunState
  {
    match GetSessionId(home)
    case Err(e) => RunState(store, [], Some(Fetch(e)))
    case Ok(sid) => Run(sid, ColumnNames(), server, EnumerateKeys(Alphabet), store)
  }

  /** Committing a key keeps the table consistent and every parent link
      pointing backwards. */
  lemma CommitKeeps(job: Job, store: seq<StoreRow>, rows: seq<StoreRow>)
    requires Consistent(store) && ParentsBefore(store)
    requires PendingOk(job, store, rows)
    ensures Consistent(store + rows) && ParentsBefore(store + rows)
  {
    var all := store + rows;
    var m := MaxId(store);
    forall k | 0 <= k < |all| && all[k].parentId.Some?
      ensures exists j :: 0 <= j < k && all[j].id == all[k].parentId.value
    {
      if k < |store| {
        assert all[k] == store[k];
        var j :| 0 <= j < k && store[j].id == store[k].parentId.value;
        assert all[j] == store[j];
      } else {
        var r := k - |store|;
        assert all[k] == rows[r];
        var v := rows[r].parentId.value;
        var j := |store| + (v - (m + 1));
        assert all[j] == rows[v - (m + 1)];
      }
    }
  }

  /** The run only ever appends to the store, and keeps its constraints
      and its parent links. */
  lemma {:induction false} RunKeeps(sessionId: nat, names: seq<string>, server: Server,
                                    keys: seq<string>, store: seq<StoreRow>)
    requires Consistent(store) && ParentsBefore(store)
    ensures var s := Run(sessionId, names, server, keys, store);
      && store <= s.store
      && Consistent(s.store) && ParentsBefore(s.store)
  {
    if |keys| > 0 {
      var job := Job(sessionId, keys[0], names, server);
      var o := ScrapeKey(job, store);
      if o.result.Ok? {
        ScrapeKeyRows(job, store);
        CommitKeeps(job, store, o.result.value);
        RunKeeps(sessionId, names, server, keys[1..], store + o.result.value);
      }
    }
  }

  /** An error leaves the store as it was after the last key that
      finished: the run's store is the input plus whole keys only. */
  /** The program: without a session it stops before any search, with the
      store untouched and the session error; with one it is the key loop
      over every key with the 26 columns. Either way a consistent store
      with backward parent links stays so and is only appended to. */
  lemma ScrapeMeaning(home: Response, server: Server, store: seq<StoreRow>)
    ensures GetSessionId(home).Err? ==>
      Scrape(home, server, store) == RunState(store, [], Some(Fetch(GetSessionId(home).error)))
    ensures GetSessionId(home).Ok? ==>
      Scrape(home, server, store) == Run(GetSessionId(home).value, ColumnNames(), server, EnumerateKeys(Alphabet), store)
    ensures Consistent(store) && ParentsBefore(store) ==>
      var s := Scrape(home, server, store).store;
      store <= s && Consistent(s) && ParentsBefore(s)
  {
    if GetSessionId(home).Ok? && Consistent(store) && ParentsBefore(store) {
      RunKeeps(GetSessionId(home).value, ColumnNames(), server, EnumerateKeys(Alphabet), store);
    }
  }

  lemma {:induction false} RunStopsAtError(sessionId: nat, names: seq<string>, server: Server,
                                           keys: seq<string>, store: seq<StoreRow>)
    requires |keys| > 0
    requires ScrapeKey(Job(sessionId, keys[0], names, server), store).result.Err?
    ensures Run(sessionId, names, server, keys, store).store == store
    ensures Run(sessionId, names, server, keys, store).error.Some?
  {
  }
}
