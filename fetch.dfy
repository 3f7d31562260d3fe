/** The fetcher goroutine of `Query` (handlers/dd_handler.go:82-144): it asks the
    Logs API for page after page, hands each page on in order, and stops on the
    first response that carries no usable cursor, a short page, or an error.

    The API itself is not modelled: a run is given the remote's answers as a
    sequence, answer j being the response to the j-th request.  The goroutine,
    the channel and the mutex are dropped; the pages the goroutine would send
    on the channel are returned, in sending order. */
module Fetch {
  import opened Wrappers
  import opened Logs

  /** maxLogsPerRequest: the page size asked for, and the short-page bound. */
  const MaxLogsPerRequest: int := 1000

  /** The wrapping that `fmt.Errorf` puts around a failed request. */
  const ListLogsError: string := "calling LogsApi.ListLogs: "

  /** The `meta.page` object of a response and its `after` cursor. */
  datatype ResponsePage = ResponsePage(after: Option<string>)
  datatype ResponseMeta = ResponseMeta(page: Option<ResponsePage>)

  /** One answer of `api.ListLogs`: an error, or the page's logs with the
      optional `meta` object. */
  datatype Response =
    | Failed(message: string)
    | Listed(data: seq<Log>, meta: Option<ResponseMeta>)

  /** The request filter: the query and the two time markers. */
  datatype Filter = Filter(query: string, from: string, to: string)

  /** What each request carries besides the fixed sort order and storage tier. */
  datatype Request = Request(filter: Filter, limit: int, cursor: Option<string>)

  /** fetchResult: one page as sent to the writer, with its page number. */
  datatype FetchResult = FetchResult(logs: seq<Log>, page: int)

  /** Everything a fetch run does: the pages it sends, the requests it makes,
      and the error it leaves in `fetchErr`. */
  datatype Outcome = Outcome(pages: seq<FetchResult>, requests: seq<Request>, err: Option<string>)

  /** Go's `int32(n)` conversion: two's-complement wrap-around to 32 bits. */
  function Int32(n: int): (r: int)
    ensures -0x8000_0000 <= r < 0x8000_0000
    ensures 0 <= n < 0x8000_0000 ==> r == n
    ensures 0 <= n ==> r <= n
  {
    (n + 0x8000_0000) % 0x1_0000_0000 - 0x8000_0000
  }

  /** The cursor the fetcher continues with after sending the page of `r`, or
      None when it stops there (handlers/dd_handler.go:126-141). */
  function NextCursor(r: Response): (c: Option<string>)
    ensures c.Some? ==> r.Listed? && r.meta.Some? && r.meta.value.page.Some?
                        && c == r.meta.value.page.value.after
    ensures c.Some? ==> c.value != "" && |r.data| >= MaxLogsPerRequest
    ensures r.Listed? && |r.data| < MaxLogsPerRequest ==> c.None?
    ensures (r.Listed? && r.meta.Some? && r.meta.value.page.Some?
             && r.meta.value.page.value.after.Some? && r.meta.value.page.value.after.value != ""
             && MaxLogsPerRequest <= |r.data| < 0x8000_0000) ==> c.Some?
  {
    match r
    case Failed(_) => None
    case Listed(data, meta) =>
      if meta.None? then None
      else if meta.value.page.None? then None
      else
        var after := meta.value.page.value.after;
        if after.None? || after.value == "" then None
        else if Int32(|data|) < MaxLogsPerRequest then None
        else after
  }

  /** The fetcher goes on after this response. */
  predicate Continues(r: Response)
  {
    NextCursor(r).Some?
  }

  /** Some answer ends the run: the remote's result set is finite. */
  predicate Finishes(rs: seq<Response>)
  {
    exists k :: 0 <= k < |rs| && !Continues(rs[k])
  }

  /** The index of the first answer after which the fetcher stops (|rs| if
      none does). */
  function FirstHalt(rs: seq<Response>): (k: nat)
    ensures k <= |rs|
    ensures forall j :: 0 <= j < k ==> Continues(rs[j])
    ensures k < |rs| ==> !Continues(rs[k])
    ensures Finishes(rs) ==> k < |rs|
  {
    if |rs| == 0 then 0
    else if !Continues(rs[0]) then 0
    else
      var k := FirstHalt(rs[1..]);
      assert forall j :: 1 <= j < k + 1 ==> rs[j] == rs[1..][j - 1];
      1 + k
  }

  /** The fetch loop as a recursive definition: what a run does from the
      current `cursor` and page number on. */
  function Run(filter: Filter, rs: seq<Response>, cursor: Option<string>, page: int): (o: Outcome)
    ensures |o.pages| <= |o.requests| <= |rs|
    ensures |o.requests| == |o.pages| + (if o.err.Some? then 1 else 0)
    decreases |rs|
  {
    if |rs| == 0 then Outcome([], [], None)
    else
      var request := Request(filter, MaxLogsPerRequest, cursor);
      match rs[0]
      case Failed(message) => Outcome([], [request], Some(ListLogsError + message))
      case Listed(data, _) =>
        var sent := FetchResult(data, page);
        var next := NextCursor(rs[0]);
        if next.None? then Outcome([sent], [request], None)
        else
          var rest := Run(filter, rs[1..], next, page + 1);
          Outcome([sent] + rest.pages, [request] + rest.requests, rest.err)
  }

  /** All records of the pages, in page order. */
  function AllLogs(pages: seq<FetchResult>): seq<Log>
  {
    if |pages| == 0 then []
    else AllLogs(pages[..|pages| - 1]) + pages[|pages| - 1].logs
  }

  /** A run in full, stated against the first halting answer k: the pages
      are the answers before k, in order and numbered from `page` on, plus
      answer k itself when it is a page; a failed answer sends nothing and
      becomes the error; requests go out for answers 0..k, the first with
      the starting cursor and each later one with the previous page's cursor. */
  lemma {:induction false} RunCharacterized(filter: Filter, rs: seq<Response>, cursor: Option<string>, page: int)
    ensures var k, o := FirstHalt(rs), Run(filter, rs, cursor, page);
      && |o.pages| <= |o.requests| <= |rs|
      && |o.pages| == (if k < |rs| && rs[k].Listed? then k + 1 else k)
      && (forall j :: 0 <= j < |o.pages| ==> rs[j].Listed? && o.pages[j] == FetchResult(rs[j].data, page + j))
      && o.err == (if k < |rs| && rs[k].Failed? then Some(ListLogsError + rs[k].message) else None)
      && |o.requests| == (if k < |rs| then k + 1 else k)
      && (forall j :: 0 <= j < |o.requests| ==> o.requests[j].filter == filter && o.requests[j].limit == MaxLogsPerRequest)
      && (|o.requests| > 0 ==> o.requests[0].cursor == cursor)
      && (forall j :: 0 < j < |o.requests| ==> o.requests[j].cursor == NextCursor(rs[j - 1]))
  {
    RunCounts(filter, rs, cursor, page);
    var o := Run(filter, rs, cursor, page);
    forall j | 0 <= j < |o.pages|
      ensures rs[j].Listed? && o.pages[j] == FetchResult(rs[j].data, page + j)
    {
      RunPageAt(filter, rs, cursor, page, j);
    }
    forall j | 0 <= j < |o.requests|
      ensures o.requests[j] == Request(filter, MaxLogsPerRequest, if j == 0 then cursor else NextCursor(rs[j - 1]))
    {
      RunRequestAt(filter, rs, cursor, page, j);
    }
  }

  /** How many pages and requests a run makes, and the error it ends with. */
  lemma {:induction false} RunCounts(filter: Filter, rs: seq<Response>, cursor: Option<string>, page: int)
    ensures var k, o := FirstHalt(rs), Run(filter, rs, cursor, page);
      && |o.pages| == (if k < |rs| && rs[k].Listed? then k + 1 else k)
      && |o.requests| == (if k < |rs| then k + 1 else k)
      && o.err == (if k < |rs| && rs[k].Failed? then Some(ListLogsError + rs[k].message) else None)
    decreases |rs|
  {
    if |rs| > 0 && Continues(rs[0]) {
      RunCounts(filter, rs[1..], NextCursor(rs[0]), page + 1);
      var k := FirstHalt(rs[1..]);
      assert k < |rs[1..]| ==> rs[1..][k] == rs[k + 1];
    }
  }

  /** Page j of a run is answer j, numbered `page + j`. */
  lemma {:induction false} RunPageAt(filter: Filter, rs: seq<Response>, cursor: Option<string>, page: int, j: nat)
    requires j < |Run(filter, rs, cursor, page).pages|
    ensures j < |rs| && rs[j].Listed?
    ensures Run(filter, rs, cursor, page).pages[j] == FetchResult(rs[j].data, page + j)
    decreases j
  {
    if j > 0 {
      var next := NextCursor(rs[0]);
      RunPageAt(filter, rs[1..], next, page + 1, j - 1);
      assert rs[1..][j - 1] == rs[j];
    }
  }

  /** Request j of a run carries the filter and the page size; the first the
      starting cursor, each later one the cursor of the answer before it. */
  lemma {:induction false} RunRequestAt(filter: Filter, rs: seq<Response>, cursor: Option<string>, page: int, j: nat)
    requires j < |Run(filter, rs, cursor, page).requests|
    ensures j < |rs|
    ensures Run(filter, rs, cursor, page).requests[j]
         == Request(filter, MaxLogsPerRequest, if j == 0 then cursor else NextCursor(rs[j - 1]))
    decreases j
  {
    if j > 0 {
      var next := NextCursor(rs[0]);
      RunRequestAt(filter, rs[1..], next, page + 1, j - 1);
      if j > 1 {
        assert rs[1..][j - 2] == rs[j - 1];
      }
    }
  }

  /** A page shorter than the page size is the last one: no request follows it
      (handlers/dd_handler.go:138-140). */
  lemma {:induction false} ShortPageIsLast(filter: Filter, rs: seq<Response>, j: nat)
    requires var o := Run(filter, rs, None, 1); j < |o.pages| && |o.pages[j].logs| < MaxLogsPerRequest
    ensures var o := Run(filter, rs, None, 1); j == |o.pages| - 1 && |o.requests| == j + 1 && o.err.None?
  {
    RunCharacterized(filter, rs, None, 1);
  }

  /** Every page but the last was full and came with a non-empty cursor, which
      the next request carries. */
  lemma {:induction false} ContinuedPagesAreFull(filter: Filter, rs: seq<Response>, j: nat)
    requires var o := Run(filter, rs, None, 1); j + 1 < |o.pages|
    ensures var o := Run(filter, rs, None, 1);
      && |o.pages[j].logs| >= MaxLogsPerRequest
      && j + 1 < |o.requests| && o.requests[j + 1].cursor.Some? && o.requests[j + 1].cursor.value != ""
  {
    RunCharacterized(filter, rs, None, 1);
  }

  /** How a finished run ends: either cleanly, right after a page whose
      response gave no way on, or with the error of a failed request for
      which no page was sent. */
  lemma {:induction false} RunEnds(filter: Filter, rs: seq<Response>)
    requires Finishes(rs)
    ensures var o := Run(filter, rs, None, 1);
      && |o.pages| <= |o.requests| <= |rs|
      && (o.err.None? ==> |o.pages| >= 1 && |o.requests| == |o.pages|
                          && !Continues(rs[|o.pages| - 1]))
      && (o.err.Some? ==> |o.requests| == |o.pages| + 1 && rs[|o.pages|].Failed?
                          && o.err == Some(ListLogsError + rs[|o.pages|].message))
  {
    RunCharacterized(filter, rs, None, 1);
  }

  /** The pages of a run are numbered 1, 2, 3, ... in sending order. */
  lemma {:induction false} PagesNumberedFromOne(filter: Filter, rs: seq<Response>, j: nat)
    requires j < |Run(filter, rs, None, 1).pages|
    ensures Run(filter, rs, None, 1).pages[j].page == j + 1
  {
    RunCharacterized(filter, rs, None, 1);
  }

  /** Run at answer i, when the fetcher stops there. */
  lemma {:induction false} RunStopsAt(filter: Filter, rs: seq<Response>, i: nat, cursor: Option<string>, page: int)
    requires i < |rs| && !Continues(rs[i])
    ensures Run(filter, rs[i..], cursor, page)
         == if rs[i].Failed? then Outcome([], [Request(filter, MaxLogsPerRequest, cursor)], Some(ListLogsError + rs[i].message))
            else Outcome([FetchResult(rs[i].data, page)], [Request(filter, MaxLogsPerRequest, cursor)], None)
  {
    assert rs[i..][0] == rs[i];
  }

  /** Run at answer i, when the fetcher goes on from there. */
  lemma {:induction false} RunContinuesAt(filter: Filter, rs: seq<Response>, i: nat, cursor: Option<string>, page: int)
    requires i < |rs| && Continues(rs[i])
    ensures var rest := Run(filter, rs[i + 1..], NextCursor(rs[i]), page + 1);
      Run(filter, rs[i..], cursor, page)
        == Outcome([FetchResult(rs[i].data, page)] + rest.pages,
                   [Request(filter, MaxLogsPerRequest, cursor)] + rest.requests, rest.err)
  {
    assert rs[i..][0] == rs[i];
    assert rs[i..][1..] == rs[i + 1..];
  }

  /** The remote still finishes after an answer the fetcher goes on from. */
  lemma {:induction false} FinishesLater(rs: seq<Response>, i: nat)
    requires i < |rs| && Finishes(rs[i..]) && Continues(rs[i])
    ensures Finishes(rs[i + 1..])
  {
    var k :| 0 <= k < |rs[i..]| && !Continues(rs[i..][k]);
    assert k != 0;
    assert rs[i + 1..][k - 1] == rs[i..][k];
  }

  /** From answer i on, with `cursor` and page number `page`, the run adds to
      what has been sent and requested so far exactly what the whole run does. */
  ghost predicate Resumes(filter: Filter, rs: seq<Response>, i: nat, cursor: Option<string>, page: int,
                          sent: seq<FetchResult>, requests: seq<Request>)
  {
    i <= |rs| &&
    var rest := Run(filter, rs[i..], cursor, page);
    Run(filter, rs, None, 1) == Outcome(sent + rest.pages, requests + rest.requests, rest.err)
  }

  /** The fetcher stops at answer i: the whole run ends with this request. */
  lemma {:induction false} StopStep(filter: Filter, rs: seq<Response>, i: nat, cursor: Option<string>, page: int,
                 sent: seq<FetchResult>, requests: seq<Request>)
    requires i < |rs| && !Continues(rs[i]) && Resumes(filter, rs, i, cursor, page, sent, requests)
    ensures var request := Request(filter, MaxLogsPerRequest, cursor);
      Run(filter, rs, None, 1)
        == if rs[i].Failed? then Outcome(sent, requests + [request], Some(ListLogsError + rs[i].message))
           else Outcome(sent + [FetchResult(rs[i].data, page)], requests + [request], None)
  {
    RunStopsAt(filter, rs, i, cursor, page);
    assert sent + [] == sent;
  }

  /** The fetcher goes on after answer i with the cursor of that answer. */
  lemma {:induction false} ContinueStep(filter: Filter, rs: seq<Response>, i: nat, cursor: Option<string>, page: int,
                     sent: seq<FetchResult>, requests: seq<Request>)
    requires i < |rs| && Continues(rs[i]) && Finishes(rs[i..])
    requires Resumes(filter, rs, i, cursor, page, sent, requests)
    ensures Finishes(rs[i + 1..])
    ensures Resumes(filter, rs, i + 1, NextCursor(rs[i]), page + 1,
                    sent + [FetchResult(rs[i].data, page)],
                    requests + [Request(filter, MaxLogsPerRequest, cursor)])
  {
    RunContinuesAt(filter, rs, i, cursor, page);
    FinishesLater(rs, i);
    var rest := Run(filter, rs[i + 1..], NextCursor(rs[i]), page + 1);
    ConcatAssoc(sent, [FetchResult(rs[i].data, page)], rest.pages);
    ConcatAssoc(requests, [Request(filter, MaxLogsPerRequest, cursor)], rest.requests);
  }

  lemma {:induction false} AllLogsSnoc(pages: seq<FetchResult>, result: FetchResult)
    ensures AllLogs(pages + [result]) == AllLogs(pages) + result.logs
  {
    assert (pages + [result])[..|pages|] == pages;
  }

  /** The fetcher goroutine.  It returns the pages in the order it sends them,
      the requests it makes, `fetchErr`, and the progress counters `totalLogs`
      and `lastPage` (handlers/dd_handler.go:82-144). */
  method FetchPages(filter: Filter, rs: seq<Response>)
    returns (sent: seq<FetchResult>, requests: seq<Request>, fetchErr: Option<string>,
             totalLogs: nat, lastPage: nat)
    requires Finishes(rs)
    ensures Outcome(sent, requests, fetchErr) == Run(filter, rs, None, 1)
    ensures totalLogs == |AllLogs(sent)| && lastPage == |sent|
  {
    assert rs[0..] == rs;
    sent, requests, fetchErr, totalLogs, lastPage := [], [], None, 0, 0;
    var cursor: Option<string> := None;
    var page := 1;
    var i := 0;  // how many answers the remote has given
    while true
      invariant 0 <= i <= |rs| && page == i + 1 && lastPage == |sent| == i
      invariant Finishes(rs[i..]) && Resumes(filter, rs, i, cursor, page, sent, requests)
      invariant fetchErr.None? && totalLogs == |AllLogs(sent)|
      decreases |rs| - i
    {
      ghost var sent0, requests0 := sent, requests;
      var request := Request(filter, MaxLogsPerRequest, cursor);
      requests := requests + [request];
      var resp := rs[i];
      if resp.Failed? {
        fetchErr := Some(ListLogsError + resp.message);
        StopStep(filter, rs, i, cursor, page, sent0, requests0);
        return;
      }
      var logs := resp.data;
      var result := FetchResult(logs, page);
      AllLogsSnoc(sent, result);
      sent := sent + [result];
      totalLogs := totalLogs + |logs|;
      lastPage := page;

      // handlers/dd_handler.go:126-141: stop unless meta.page.after is a
      // non-empty cursor and the page was full
      var after := NextCursor(resp);
      if after.None? {
        StopStep(filter, rs, i, cursor, page, sent0, requests0);
        return;
      }
      ContinueStep(filter, rs, i, cursor, page, sent0, requests0);
      cursor := after;
      page := page + 1;
      i := i + 1;
    }
  }
}
