/** The search request of the scraper: the query parameters chosen by the
    page offset, the poll loop that waits for the server to finish computing,
    and the tag searches that read numbers out of a response body. The HTTP
    transport itself is a parameter: `reply(attempt)` is the response the
    server gives to the attempt-th identical request. */
module SearchClient {
  import opened Common
  import opened Decimal
  import opened Xml

  /** `max_results_per_page` and `results_per_page`: the server's page size. */
  const PageSize: nat := 15

  /** `range(1000)` in the poll loop. */
  const MaxPolls: nat := 1000

  /** `search_results_are_loading_bytes` */
  const LoadingMarker: string := "<refresh><percentcomplete>"

  /** A response: HTTP status, body bytes (one char per byte) and the element
      tree lxml builds from that body, or None when the body is not
      well-formed XML and `lxml.etree.fromstring` raises. */
  datatype Response = Response(status: nat, body: string, doc: Option<Element>)

  datatype FetchError =
    | BadStatus(status: nat)   // `assert response.status == 200`
    | HitCountMissing          // no `<hitcount>` in a finished response: `sys.exit(1)`
    | Stalled                  // every poll said "still computing": `sys.exit(1)`
    | SessionIdMissing         // no `<sessionid>` on the home page: `ValueError`

  // ---------------------------------------------------------------- text search

  predicate OccursAt(s: string, i: nat, pat: string)
  {
    i + |pat| <= |s| && s[i..i + |pat|] == pat
  }

  /** `pat in s`, searched left to right. */
  predicate Contains(s: string, pat: string)
  {
    ContainsFrom(s, pat, 0)
  }

  predicate ContainsFrom(s: string, pat: string, i: nat)
    decreases |s| + 1 - i
  {
    i <= |s| && (OccursAt(s, i, pat) || ContainsFrom(s, pat, i + 1))
  }

  /** The search succeeds exactly when `pat` occurs somewhere at or after
      position `i`. */
  lemma {:induction false} ContainsFromMeaning(s: string, pat: string, i: nat)
    ensures ContainsFrom(s, pat, i) <==> exists j: nat :: i <= j && OccursAt(s, j, pat)
    decreases |s| + 1 - i
  {
    if i <= |s| {
      ContainsFromMeaning(s, pat, i + 1);
      if exists j: nat :: i <= j && OccursAt(s, j, pat) {
        var j: nat :| i <= j && OccursAt(s, j, pat);
        assert j == i || (i + 1 <= j && OccursAt(s, j, pat));
      }
    } else {
      assert forall j: nat :: i <= j ==> !OccursAt(s, j, pat);
    }
  }

  /** `pat in s` holds exactly when `pat` occurs at some position. */
  lemma ContainsMeaning(s: string, pat: string)
    ensures Contains(s, pat) <==> exists j: nat :: OccursAt(s, j, pat)
  {
    ContainsFromMeaning(s, pat, 0);
  }

  /** The length of the run of ASCII digits that starts at `i`. */
  function DigitRun(s: string, i: nat): (n: nat)
    requires i <= |s|
    ensures i + n <= |s|
    ensures AllDigits(s[i..i + n])
    ensures i + n < |s| ==> !IsDigit(s[i + n])
    decreases |s| - i
  {
    if i < |s| && IsDigit(s[i]) then
      var n := DigitRun(s, i + 1);
      assert s[i..i + 1 + n] == [s[i]] + s[i + 1..i + 1 + n];
      1 + n
    else 0
  }

  /** Whether the regular expression `<tag>([0-9]+)</tag>` matches at `i`,
      and the number its group denotes. Since the digit group is greedy and
      the closing tag starts with a non-digit, the group is the whole digit
      run after the opening tag. */
  function TagNumberAt(s: string, i: nat, tag: string): Option<nat>
  {
    var open, close := "<" + tag + ">", "</" + tag + ">";
    if !OccursAt(s, i, open) then None
    else
      var start := i + |open|;
      var n := DigitRun(s, start);
      if n > 0 && OccursAt(s, start + n, close) then Some(DigitsValue(s[start..start + n]))
      else None
  }

  /** `re.search(b'<tag>([0-9]+)</tag>', s)` read as an integer: the match
      at the leftmost position where the pattern matches. */
  function SearchTagNumber(s: string, tag: string): Option<nat>
  {
    SearchTagNumberFrom(s, tag, 0)
  }

  function SearchTagNumberFrom(s: string, tag: string, from: nat): Option<nat>
    decreases |s| + 1 - from
  {
    if from > |s| then None
    else if TagNumberAt(s, from, tag).Some? then TagNumberAt(s, from, tag)
    else SearchTagNumberFrom(s, tag, from + 1)
  }

  /** The search from `from` on finds nothing exactly when the pattern
      matches nowhere from there, and otherwise yields the match at the
      leftmost matching position. */
  lemma SearchFromLeftmost(s: string, tag: string, from: nat)
    ensures SearchTagNumberFrom(s, tag, from).None? <==> forall i: nat :: from <= i ==> TagNumberAt(s, i, tag).None?
    ensures SearchTagNumberFrom(s, tag, from).Some? ==>
              exists i: nat :: from <= i && TagNumberAt(s, i, tag) == SearchTagNumberFrom(s, tag, from)
                && forall k: nat :: from <= k < i ==> TagNumberAt(s, k, tag).None?
  {
    SearchFromNone(s, tag, from);
    if SearchTagNumberFrom(s, tag, from).Some? {
      var i := SearchFromFound(s, tag, from);
    }
  }

  lemma NoTagPastEnd(s: string, tag: string, i: nat)
    requires i > |s|
    ensures TagNumberAt(s, i, tag).None?
  {
    assert !OccursAt(s, i, "<" + tag + ">");
  }

  lemma {:induction false} SearchFromNone(s: string, tag: string, from: nat)
    ensures SearchTagNumberFrom(s, tag, from).None? <==> forall i: nat :: from <= i ==> TagNumberAt(s, i, tag).None?
    decreases |s| + 1 - from
  {
    if from > |s| {
      forall i: nat | from <= i
        ensures TagNumberAt(s, i, tag).None?
      {
        NoTagPastEnd(s, tag, i);
      }
    } else if TagNumberAt(s, from, tag).None? {
      SearchFromNone(s, tag, from + 1);
    }
  }

  /** The position of the leftmost match from `from` on. */
  lemma {:induction false} SearchFromFound(s: string, tag: string, from: nat) returns (i: nat)
    requires SearchTagNumberFrom(s, tag, from).Some?
    ensures from <= i && TagNumberAt(s, i, tag) == SearchTagNumberFrom(s, tag, from)
    ensures forall k: nat :: from <= k < i ==> TagNumberAt(s, k, tag).None?
    decreases |s| + 1 - from
  {
    if TagNumberAt(s, from, tag).Some? {
      i := from;
    } else {
      i := SearchFromFound(s, tag, from + 1);
    }
  }

  /** `re.search` finds nothing exactly when the pattern matches nowhere,
      and otherwise yields the match at the leftmost matching position. */
  lemma SearchTagNumberLeftmost(s: string, tag: string)
    ensures SearchTagNumber(s, tag).None? <==> forall i: nat :: TagNumberAt(s, i, tag).None?
    ensures SearchTagNumber(s, tag).Some? ==>
              exists i: nat :: TagNumberAt(s, i, tag) == SearchTagNumber(s, tag)
                && forall k: nat :: k < i ==> TagNumberAt(s, k, tag).None?
  {
    SearchFromLeftmost(s, tag, 0);
  }

  // ---------------------------------------------------------------- session

  /** `get_sessionid`: the home page must answer 200, and its body must
      carry the session number between `<sessionid>` tags. */
  function GetSessionId(home: Response): (r: Result<nat, FetchError>)
    ensures r.Ok? <==> home.status == 200 && exists i: nat :: TagNumberAt(home.body, i, "sessionid").Some?
    ensures r.Ok? ==> exists i: nat :: TagNumberAt(home.body, i, "sessionid") == Some(r.value)
    ensures home.status != 200 ==> r == Err(BadStatus(home.status))
  {
    SearchTagNumberLeftmost(home.body, "sessionid");
    if home.status != 200 then Err(BadStatus(home.status))
    else
      match SearchTagNumber(home.body, "sessionid")
      case Some(n) => Ok(n)
      case None => Err(SessionIdMissing)
  }

  // ---------------------------------------------------------------- request

  /** The value sent under `name`: the first pair with that name. */
  function Lookup(params: seq<(string, string)>, name: string): (r: Option<string>)
    ensures r.Some? ==> (name, r.value) in params
    ensures r.None? ==> forall v :: (name, v) !in params
  {
    if |params| == 0 then None
    else if params[0].0 == name then Some(params[0].1)
    else Lookup(params[1..], name)
  }

  /** The parameters of one search request: offset 0 starts the search, any
      other offset jumps to page `1 + offset // 15`. */
  function SearchParams(sessionId: nat, key: string, offset: nat): seq<(string, string)>
  {
    if offset == 0 then CommonParams(sessionId, key) + [("btnhidden", "Suchen")]
    else CommonParams(sessionId, key) + PageParams(1 + offset / PageSize)
  }

  /** The parameters that jump to page `n`. */
  function PageParams(n: nat): seq<(string, string)>
  {
    [("startrecord", "0"), ("btnpage", NatToString(n))]
  }

  lemma PageParamsLookup(n: nat)
    ensures Lookup(PageParams(n), "startrecord") == Some("0")
    ensures Lookup(PageParams(n), "btnpage") == Some(NatToString(n))
    ensures Lookup(PageParams(n), "btnhidden").None?
  {
    assert "btnpage" != "startrecord" && "btnhidden" != "startrecord" && "btnhidden" != "btnpage";
  }

  /** The parameters every search request carries. */
  function CommonParams(sessionId: nat, key: string): seq<(string, string)>
  {
    [
      ("sessionid", NatToString(sessionId)), ("database", "whitepages"),
      ("lastdatabase", "whitepages"), ("city", ""), ("name", key), ("firstname", "")
    ]
  }

  lemma {:induction false} LookupAppend(a: seq<(string, string)>, b: seq<(string, string)>, name: string)
    ensures Lookup(a + b, name) == if Lookup(a, name).Some? then Lookup(a, name) else Lookup(b, name)
  {
    if |a| == 0 {
      assert a + b == b;
    } else {
      assert (a + b)[0] == a[0] && (a + b)[1..] == a[1..] + b;
      LookupAppend(a[1..], b, name);
    }
  }

  /** The paging parameters are none of the common ones. */
  lemma CommonLacksPaging(sessionId: nat, key: string)
    ensures Lookup(CommonParams(sessionId, key), "btnhidden").None?
    ensures Lookup(CommonParams(sessionId, key), "startrecord").None?
    ensures Lookup(CommonParams(sessionId, key), "btnpage").None?
  {
    var c := CommonParams(sessionId, key);
    assert forall i :: 0 <= i < |c| ==> c[i].0 in {"sessionid", "database", "lastdatabase", "city", "name", "firstname"};
  }

  /** Every request names the session, as decimal text, and the search key. */
  lemma SearchParamsSession(sessionId: nat, key: string, offset: nat)
    ensures var p := SearchParams(sessionId, key, offset);
      && Lookup(p, "sessionid").Some?
      && ParseInt(Lookup(p, "sessionid").value) == Some(sessionId)
      && Lookup(p, "name") == Some(key)
  {
    var c := CommonParams(sessionId, key);
    var rest := SearchParams(sessionId, key, offset)[|c|..];
    assert SearchParams(sessionId, key, offset) == c + rest;
    LookupAppend(c, rest, "sessionid");
    LookupAppend(c, rest, "name");
    ParseIntNatToString(sessionId);
  }

  /** The first page is asked for with the "start search" button and
      without a page number. */
  lemma SearchParamsFirstPage(sessionId: nat, key: string)
    ensures var p := SearchParams(sessionId, key, 0);
      && Lookup(p, "btnhidden") == Some("Suchen")
      && Lookup(p, "btnpage").None? && Lookup(p, "startrecord").None?
  {
    CommonLacksPaging(sessionId, key);
    LookupAppend(CommonParams(sessionId, key), [("btnhidden", "Suchen")], "btnhidden");
    LookupAppend(CommonParams(sessionId, key), [("btnhidden", "Suchen")], "btnpage");
    LookupAppend(CommonParams(sessionId, key), [("btnhidden", "Suchen")], "startrecord");
  }

  /** Any later offset asks for record 0 of the page numbered
      `1 + offset // 15`, counting pages from 1, without the start button. */
  lemma SearchParamsLaterPage(sessionId: nat, key: string, offset: nat)
    requires offset > 0
    ensures var p := SearchParams(sessionId, key, offset);
      && Lookup(p, "btnhidden").None?
      && Lookup(p, "startrecord") == Some("0")
      && Lookup(p, "btnpage").Some?
      && ParseInt(Lookup(p, "btnpage").value) == Some(1 + offset / PageSize)
  {
    var n := 1 + offset / PageSize;
    var page := PageParams(n);
    assert SearchParams(sessionId, key, offset) == CommonParams(sessionId, key) + page;
    PageParamsLookup(n);
    CommonLacksPaging(sessionId, key);
    LookupAppend(CommonParams(sessionId, key), page, "btnhidden");
    LookupAppend(CommonParams(sessionId, key), page, "btnpage");
    LookupAppend(CommonParams(sessionId, key), page, "startrecord");
    ParseIntNatToString(n);
  }

  // ---------------------------------------------------------------- poll loop

  predicate Loading(r: Response)
  {
    Contains(r.body, LoadingMarker)
  }

  /** Attempts `from` up to (excluding) `upto` all came back with status 200
      and the "still computing" marker. */
  ghost predicate StillComputing(reply: nat -> Response, from: nat, upto: nat)
  {
    forall k: nat :: from <= k < upto ==> reply(k).status == 200 && Loading(reply(k))
  }

  /** What one finished (not "still computing") response yields: a non-200
      status fails the assertion, otherwise the hit count is read from the
      body and its absence ends the program. */
  function Settle(resp: Response): (r: Result<(nat, Response), FetchError>)
    ensures r != Err(Stalled)
    ensures r.Ok? <==> resp.status == 200 && SearchTagNumber(resp.body, "hitcount").Some?
    ensures r.Ok? ==> r.value == (SearchTagNumber(resp.body, "hitcount").value, resp)
  {
    if resp.status != 200 then Err(BadStatus(resp.status))
    else
      match SearchTagNumber(resp.body, "hitcount")
      case Some(n) => Ok((n, resp))
      case None => Err(HitCountMissing)
  }

  /** `get_search_results`: re-sends the request while the body carries the
      loading marker, at most 1000 times; returns the hit count and the
      response of the first finished attempt. */
  function GetSearchResults(reply: nat -> Response): Result<(nat, Response), FetchError>
  {
    PollFrom(reply, 0)
  }

  function PollFrom(reply: nat -> Response, attempt: nat): Result<(nat, Response), FetchError>
    requires attempt <= MaxPolls
    decreases MaxPolls - attempt
  {
    if attempt == MaxPolls then Err(Stalled)
    else
      var resp := reply(attempt);
      if resp.status == 200 && Loading(resp) then PollFrom(reply, attempt + 1)
      else Settle(resp)
  }

  /** When attempts `attempt .. a-1` were still computing and attempt `a`
      was not, the loop's outcome is the outcome of attempt `a` alone. */
  lemma {:induction false} PollSettlesAt(reply: nat -> Response, attempt: nat, a: nat)
    requires attempt <= a < MaxPolls
    requires StillComputing(reply, attempt, a)
    requires !(reply(a).status == 200 && Loading(reply(a)))
    ensures PollFrom(reply, attempt) == Settle(reply(a))
    decreases a - attempt
  {
    if attempt < a {
      assert reply(attempt).status == 200 && Loading(reply(attempt));
      PollSettlesAt(reply, attempt + 1, a);
    }
  }

  /** The loop gives up exactly when every remaining attempt up to the
      1000th was still computing. */
  lemma {:induction false} PollStalls(reply: nat -> Response, attempt: nat)
    requires attempt <= MaxPolls
    ensures PollFrom(reply, attempt) == Err(Stalled) <==> StillComputing(reply, attempt, MaxPolls)
    decreases MaxPolls - attempt
  {
    if attempt < MaxPolls {
      PollStalls(reply, attempt + 1);
      if !(reply(attempt).status == 200 && Loading(reply(attempt))) {
        assert !StillComputing(reply, attempt, MaxPolls);
      }
    }
  }

  /** The whole poll loop: it stalls iff all 1000 attempts were still
      computing, and otherwise its outcome is that of the first finished
      attempt. */
  lemma GetSearchResultsOutcome(reply: nat -> Response)
    ensures GetSearchResults(reply) == Err(Stalled) <==> StillComputing(reply, 0, MaxPolls)
    ensures forall a: nat :: a < MaxPolls && StillComputing(reply, 0, a)
              && !(reply(a).status == 200 && Loading(reply(a)))
              ==> GetSearchResults(reply) == Settle(reply(a))
  {
    PollStalls(reply, 0);
    forall a: nat | a < MaxPolls && StillComputing(reply, 0, a)
                    && !(reply(a).status == 200 && Loading(reply(a)))
      ensures GetSearchResults(reply) == Settle(reply(a))
    {
      PollSettlesAt(reply, 0, a);
    }
  }
}
