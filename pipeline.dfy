/** `Query` (handlers/dd_handler.go:49-205) with the fetcher goroutine and the
    writer run one after the other: the fetch run produces the pages in the
    order the goroutine would send them on the channel, and the drive loop
    (handlers/dd_handler.go:166-194) then hands them to the chosen writer in
    that same order. */
module Pipeline {
  import opened Wrappers
  import opened Logs
  import opened Writer
  import opened Fetch
  import opened JsonOutput
  import opened CsvOutput
  import opened Strings

  /** The `logWriter` chosen by the output format (handlers/dd_handler.go:160-164). */
  datatype LogWriter = JsonOut(json: JsonWriter) | CsvOut(csv: CsvWriter)
  {
    ghost function Obj(): object
    {
      if JsonOut? then json else csv
    }

    ghost predicate Valid()
      reads Obj()
    {
      if JsonOut? then json.Valid() else csv.Valid()
    }

    /** The calls the writer has received. */
    ghost function Calls(): seq<Call>
      reads Obj()
    {
      if JsonOut? then json.calls else csv.calls
    }

    method Start()
      requires Valid()
      modifies Obj()
      ensures Valid() && Calls() == old(Calls()) + [Call.Start]
    {
      if JsonOut? { json.Start(); } else { csv.Start(); }
    }

    method WriteLog(log: Log)
      requires Valid()
      modifies Obj()
      ensures Valid() && Calls() == old(Calls()) + [Call.WriteLog(log)]
    {
      if JsonOut? { json.WriteLog(log); } else { csv.WriteLog(log); }
    }

    method FlushPage()
      requires Valid()
      modifies Obj()
      ensures Valid() && Calls() == old(Calls()) + [Call.FlushPage]
    {
      if JsonOut? { json.FlushPage(); } else { csv.FlushPage(); }
    }

    method End()
      requires Valid()
      modifies Obj()
      ensures Valid() && Calls() == old(Calls()) + [Call.End]
    {
      if JsonOut? { json.End(); } else { csv.End(); }
    }
  }

  /** The calls the drive loop makes for the pages: every record of every
      page, in order, and FlushPage once, right after the first page. */
  function PageCalls(pages: seq<FetchResult>): seq<Call>
  {
    if |pages| == 0 then []
    else
      PageCalls(pages[..|pages| - 1])
        + (Writes(pages[|pages| - 1].logs) + (if |pages| == 1 then [FlushPage] else []))
  }

  /** The whole call sequence of a drive: Start, the pages' calls, and End
      only when the fetch ended without error. */
  function Protocol(pages: seq<FetchResult>, fetchErr: Option<string>): seq<Call>
  {
    [Start] + PageCalls(pages) + (if fetchErr.None? then [End] else [])
  }

  lemma {:induction false} WritesSnoc(logs: seq<Log>, i: int)
    requires 0 <= i < |logs|
    ensures Writes(logs[..i + 1]) == Writes(logs[..i]) + [WriteLog(logs[i])]
  {
  }

  lemma {:induction false} PageCallsSnoc(pages: seq<FetchResult>, p: int)
    requires 0 <= p < |pages|
    ensures PageCalls(pages[..p + 1])
         == PageCalls(pages[..p]) + (Writes(pages[p].logs) + (if p == 0 then [FlushPage] else []))
  {
    assert pages[..p + 1][..p] == pages[..p];
  }

  /** The inner loop of the drive: every record of one page, in order. */
  method WritePage(w: LogWriter, logs: seq<Log>)
    requires w.Valid()
    modifies w.Obj()
    ensures w.Valid() && w.Calls() == old(w.Calls()) + Writes(logs)
  {
    ghost var before := w.Calls();
    var i := 0;
    while i < |logs|
      invariant 0 <= i <= |logs|
      invariant w.Valid() && w.Calls() == before + Writes(logs[..i])
    {
      w.WriteLog(logs[i]);
      WritesSnoc(logs, i);
      ConcatAssoc(before, Writes(logs[..i]), [Call.WriteLog(logs[i])]);
      i := i + 1;
    }
    assert logs[..i] == logs;
  }

  /** One pass of the drive loop: the page's records, then FlushPage when
      it is the first page. */
  method DrivePage(w: LogWriter, logs: seq<Log>, firstPage: bool)
    requires w.Valid()
    modifies w.Obj()
    ensures w.Valid()
    ensures w.Calls() == old(w.Calls()) + (Writes(logs) + (if firstPage then [Call.FlushPage] else []))
  {
    WritePage(w, logs);
    if firstPage {
      w.FlushPage();
      ConcatAssoc(old(w.Calls()), Writes(logs), [Call.FlushPage]);
    } else {
      assert Writes(logs) + [] == Writes(logs);
    }
  }

  /** The drive loop proper: for each page in arrival order every record
      to WriteLog and, after the first page only, FlushPage. */
  method DrivePages(w: LogWriter, pages: seq<FetchResult>)
    requires w.Valid()
    modifies w.Obj()
    ensures w.Valid() && w.Calls() == old(w.Calls()) + PageCalls(pages)
  {
    ghost var base := w.Calls();
    var firstPage := true;
    var p := 0;
    while p < |pages|
      invariant 0 <= p <= |pages| && firstPage == (p == 0)
      invariant w.Valid() && w.Calls() == base + PageCalls(pages[..p])
    {
      DrivePage(w, pages[p].logs, firstPage);
      firstPage := false;
      PageCallsSnoc(pages, p);
      ConcatAssoc(base, PageCalls(pages[..p]),
                  Writes(pages[p].logs) + (if p == 0 then [Call.FlushPage] else []));
      p := p + 1;
    }
    assert pages[..p] == pages;
  }

  /** The drive: Start, the pages, then the fetch error if there was one,
      and End only if there was none. */
  method Drive(w: LogWriter, pages: seq<FetchResult>, fetchErr: Option<string>)
      returns (err: Option<string>)
    requires w.Valid()
    modifies w.Obj()
    ensures w.Valid() && w.Calls() == old(w.Calls()) + Protocol(pages, fetchErr)
    ensures err == fetchErr
  {
    w.Start();
    DrivePages(w, pages);
    ConcatAssoc(old(w.Calls()), [Call.Start], PageCalls(pages));
    if fetchErr.Some? {
      assert Protocol(pages, fetchErr) == [Call.Start] + PageCalls(pages) + [];
      return fetchErr;
    }
    w.End();
    ConcatAssoc(old(w.Calls()), [Call.Start] + PageCalls(pages), [Call.End]);
    err := None;
  }

  lemma {:induction false} WritesAppend(a: seq<Log>, b: seq<Log>)
    ensures Writes(a + b) == Writes(a) + Writes(b)
  {
    assert |Writes(a + b)| == |Writes(a) + Writes(b)|;
    forall i | 0 <= i < |a| + |b|
      ensures Writes(a + b)[i] == (Writes(a) + Writes(b))[i]
    {
      if i >= |a| {
        assert (a + b)[i] == b[i - |a|];
      }
    }
  }

  /** AllLogs read from the front: the first page's records, then the rest. */
  lemma {:induction false} AllLogsCons(pages: seq<FetchResult>)
    requires |pages| >= 1
    ensures AllLogs(pages) == pages[0].logs + AllLogs(pages[1..])
    decreases |pages|
  {
    if |pages| == 1 {
      assert pages[1..] == [];
      assert pages[..0] == [];
    } else {
      var init := pages[..|pages| - 1];
      AllLogsCons(init);
      assert init[1..] == pages[1..][..|pages[1..]| - 1];
      assert init[0] == pages[0];
      ConcatAssoc(pages[0].logs, AllLogs(init[1..]), pages[|pages| - 1].logs);
    }
  }

  /** The page calls in closed form: the first page's records, the one
      FlushPage, then every later record. */
  lemma {:induction false} PageCallsClosed(pages: seq<FetchResult>)
    requires |pages| >= 1
    ensures PageCalls(pages) == Writes(pages[0].logs) + [FlushPage] + Writes(AllLogs(pages[1..]))
    decreases |pages|
  {
    if |pages| == 1 {
      assert pages[..0] == [] && pages[1..] == [];
      assert Writes([]) == [];
    } else {
      var init := pages[..|pages| - 1];
      var last := pages[|pages| - 1];
      PageCallsClosed(init);
      assert init[0] == pages[0];
      var rest := pages[1..];
      assert rest[..|rest| - 1] == init[1..] && rest[|rest| - 1] == last;
      assert AllLogs(rest) == AllLogs(init[1..]) + last.logs;
      WritesAppend(AllLogs(init[1..]), last.logs);
      assert Writes(last.logs) + [] == Writes(last.logs);
      var head := Writes(pages[0].logs) + [FlushPage];
      ConcatAssoc(head, Writes(AllLogs(init[1..])), Writes(last.logs));
    }
  }

  /** A drive in closed form.  With at least one page: Start, the first
      page's records, FlushPage exactly there and nowhere else, every later
      record, and End only without a fetch error.  With no page: Start, and
      End only without a fetch error. */
  lemma {:induction false} ProtocolShape(pages: seq<FetchResult>, fetchErr: Option<string>)
    ensures |pages| >= 1 ==>
      Protocol(pages, fetchErr)
        == [Start] + Writes(pages[0].logs) + [FlushPage] + Writes(AllLogs(pages[1..]))
           + (if fetchErr.None? then [End] else [])
    ensures |pages| == 0 ==> Protocol(pages, fetchErr) == [Start] + (if fetchErr.None? then [End] else [])
  {
    if |pages| >= 1 {
      PageCallsClosed(pages);
      var ws, fl, rest := Writes(pages[0].logs), [FlushPage], Writes(AllLogs(pages[1..]));
      assert [Start] + (ws + fl + rest) == [Start] + ws + fl + rest;
    } else {
      assert [Start] + [] == [Start];
    }
  }

  /** The page calls hand every record of every page to WriteLog, in page
      order. */
  lemma {:induction false} PageCallsWritten(pages: seq<FetchResult>)
    ensures Written(PageCalls(pages)) == AllLogs(pages)
    decreases |pages|
  {
    if |pages| > 0 {
      var init, last := pages[..|pages| - 1], pages[|pages| - 1];
      var flush: seq<Call> := if |pages| == 1 then [FlushPage] else [];
      PageCallsWritten(init);
      WrittenAppend(PageCalls(init), Writes(last.logs) + flush);
      WrittenAppend(Writes(last.logs), flush);
      WrittenWrites(last.logs);
      assert Written(flush) == [] by {
        WrittenSnoc([], FlushPage);
        assert [] + [FlushPage] == [FlushPage];
      }
    }
  }

  /** The page calls are WriteLog and FlushPage calls only. */
  lemma {:induction false} PageCallsBody(pages: seq<FetchResult>)
    ensures Body(PageCalls(pages))
    decreases |pages|
  {
    if |pages| > 0 {
      var init := pages[..|pages| - 1];
      var more := Writes(pages[|pages| - 1].logs) + (if |pages| == 1 then [FlushPage] else []);
      PageCallsBody(init);
      var calls := PageCalls(init) + more;
      forall i | 0 <= i < |calls| ensures calls[i].WriteLog? || calls[i].FlushPage? {
        if i < |PageCalls(init)| {
          assert calls[i] == PageCalls(init)[i];
        } else {
          assert calls[i] == more[i - |PageCalls(init)|];
        }
      }
    }
  }

  /** The writer receives every record of every page, in page order. */
  lemma {:induction false} ProtocolWritesAll(pages: seq<FetchResult>, fetchErr: Option<string>)
    ensures Written(Protocol(pages, fetchErr)) == AllLogs(pages)
  {
    var tail: seq<Call> := if fetchErr.None? then [End] else [];
    assert Written(tail) == [] by {
      WrittenSnoc([], End);
      assert [] + [End] == [End];
    }
    PageCallsWritten(pages);
    WrittenAfterStart(PageCalls(pages));
    WrittenAppend([Start] + PageCalls(pages), tail);
  }

  /** The CSV schema freezes exactly when a page arrived or the run
      succeeded, and then at the first page's last record. */
  lemma {:induction false} ProtocolFreezes(pages: seq<FetchResult>, fetchErr: Option<string>)
    ensures Frozen(Protocol(pages, fetchErr)) <==> |pages| >= 1 || fetchErr.None?
    ensures |pages| >= 1 ==> FrozenAfter(Protocol(pages, fetchErr)) == |pages[0].logs|
    ensures |pages| == 0 ==> FrozenAfter(Protocol(pages, fetchErr)) == 0
  {
    ProtocolShape(pages, fetchErr);
    FrozenSnoc([], Start);
    assert [] + [Start] == [Start];
    WrittenSnoc([], Start);
    if |pages| >= 1 {
      var ws, rest := Writes(pages[0].logs), Writes(AllLogs(pages[1..]));
      FrozenAppendWrites([Start], pages[0].logs);
      WrittenAppend([Start], ws);
      WrittenWrites(pages[0].logs);
      FrozenSnoc([Start] + ws, FlushPage);
      FrozenAppendWrites([Start] + ws + [FlushPage], AllLogs(pages[1..]));
      if fetchErr.None? {
        FrozenSnoc([Start] + ws + [FlushPage] + rest, End);
      } else {
        assert [Start] + ws + [FlushPage] + rest + [] == [Start] + ws + [FlushPage] + rest;
      }
    } else if fetchErr.None? {
      FrozenSnoc([Start], End);
    } else {
      assert [Start] + [] == [Start];
    }
  }

  /** What `Query` leaves in the output. */
  datatype Output = JsonDoc(text: string) | CsvRows(rows: seq<seq<string>>)

  /** Query: fetch with the filter built from the query and the two time
      markers, stream the pages to the writer for `format` ("json" selects
      JSON, anything else CSV), and return the fetch error if any. */
  method Query(query: string, from: string, to: string, format: string, rs: seq<Response>)
      returns (err: Option<string>, requests: seq<Request>, output: Output)
    requires Finishes(rs)
    ensures var o := Run(Filter(query, ToDatadogTime(from), ToDatadogTime(to)), rs, None, 1);
      && err == o.err && requests == o.requests
      && (format == "json" ==> output == JsonDoc(JsonArray(AllLogs(o.pages), o.err.None?)))
      && (format != "json" ==> output.CsvRows?)
      && (format != "json" && |o.pages| == 0 ==> output.rows == [])
      && (format != "json" && |o.pages| >= 1 ==>
            && |output.rows| >= 1
            && IsHeader(output.rows[0], AttrKeys(o.pages[0].logs))
            && output.rows[1..] == Table(output.rows[0], AllLogs(o.pages)))
  {
    var filter := Filter(query, ToDatadogTime(from), ToDatadogTime(to));
    var pages, fetchErr, totalLogs, lastPage;
    pages, requests, fetchErr, totalLogs, lastPage := FetchPages(filter, rs);
    RunEnds(filter, rs);
    if format == "json" {
      var jw := new JsonWriter();
      err := Drive(JsonOut(jw), pages, fetchErr);
      JsonOutcome(pages, fetchErr);
      assert [] + Protocol(pages, fetchErr) == Protocol(pages, fetchErr);
      output := JsonDoc(jw.out);
    } else {
      var cw := new CsvWriter();
      err := Drive(CsvOut(cw), pages, fetchErr);
      assert [] + Protocol(pages, fetchErr) == Protocol(pages, fetchErr);
      CsvOutcome(pages, fetchErr, cw.attrSet, cw.started, cw.buffer, cw.headers, cw.rows);
      output := CsvRows(cw.rows);
    }
  }

  /** The JSON document a drive leaves: the open array of all records,
      closed only when the fetch succeeded. */
  lemma {:induction false} JsonOutcome(pages: seq<FetchResult>, fetchErr: Option<string>)
    ensures JsonText(Protocol(pages, fetchErr)) == JsonArray(AllLogs(pages), fetchErr.None?)
  {
    var body := PageCalls(pages);
    PageCallsBody(pages);
    PageCallsWritten(pages);
    if fetchErr.None? {
      assert Protocol(pages, fetchErr) == [Start] + body + [End];
      ClosedArray(body);
    } else {
      assert Protocol(pages, fetchErr) == [Start] + body;
      OpenArray(body);
    }
  }

  /** A fetch that fails on its first request leaves the JSON output with
      only the opening bracket: Start ran, End did not. */
  lemma {:induction false} FailedFirstRequestJson(message: string)
    ensures JsonText(Protocol([], Some(message))) == "[\n"
  {
    JsonOutcome([], Some(message));
    assert Join(Entries([]), ",\n") == "";
  }

  /** The CSV rows a drive leaves: nothing at all when no page arrived and
      the fetch failed; otherwise the header frozen on the first page's keys,
      then one row per record of every page, in order. */
  lemma {:induction false} CsvOutcome(pages: seq<FetchResult>, fetchErr: Option<string>,
                   attrSet: set<string>, started: bool, buffer: seq<Log>,
                   headers: seq<string>, rows: seq<seq<string>>)
    requires Consistent(attrSet, started, buffer, headers, rows, Protocol(pages, fetchErr))
    requires |pages| >= 1 || fetchErr.Some?
    ensures |pages| == 0 ==> rows == []
    ensures |pages| >= 1 ==>
      && |rows| >= 1
      && IsHeader(rows[0], AttrKeys(pages[0].logs))
      && rows[1..] == Table(rows[0], AllLogs(pages))
  {
    ProtocolFreezes(pages, fetchErr);
    ProtocolWritesAll(pages, fetchErr);
    if |pages| >= 1 {
      AllLogsCons(pages);
      assert AllLogs(pages)[..|pages[0].logs|] == pages[0].logs;
    }
  }

  /** A query that finds no records still writes the header: the CSV output
      is exactly one row, the fixed columns. */
  lemma {:induction false} HeaderOnly(pages: seq<FetchResult>, fetchErr: Option<string>,
                   attrSet: set<string>, started: bool, buffer: seq<Log>,
                   headers: seq<string>, rows: seq<seq<string>>)
    requires Consistent(attrSet, started, buffer, headers, rows, Protocol(pages, fetchErr))
    requires |pages| >= 1 && AllLogs(pages) == []
    ensures rows == [FixedColumns]
  {
    CsvOutcome(pages, fetchErr, attrSet, started, buffer, headers, rows);
    AllLogsCons(pages);
    assert pages[0].logs == [];
    ListingEmpty(rows[0][|FixedColumns|..], {});
    assert rows[0] == rows[0][..|FixedColumns|] + rows[0][|FixedColumns|..] == FixedColumns;
    assert rows[1..] == Table(rows[0], []) == [];
    assert rows == [rows[0]] + rows[1..];
  }

  /** In a query, End always finds the header already written: a fetch that
      ends without error has sent at least one page, so FlushPage froze the
      schema before End is called, and End's own freeze never happens. */
  lemma {:induction false} EndFindsHeaderWritten(filter: Filter, rs: seq<Response>)
    requires Finishes(rs)
    ensures var o := Run(filter, rs, None, 1);
      o.err.None? ==> |o.pages| >= 1 && Frozen([Start] + PageCalls(o.pages))
  {
    var o := Run(filter, rs, None, 1);
    RunEnds(filter, rs);
    if o.err.None? {
      ProtocolFreezes(o.pages, Some(""));
      assert Protocol(o.pages, Some("")) == [Start] + PageCalls(o.pages);
    }
  }
}
