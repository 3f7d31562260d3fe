/** csvWriter (handlers/dd_handler.go:250-349): buffers the records of the
    first page while collecting their custom-attribute keys, then freezes the
    header as the fixed columns followed by the sorted keys, writes the header
    and the buffered rows, and from then on writes each record as one row laid
    out against that header.  Output is the sequence of rows handed to the CSV
    encoder; quoting and byte-level formatting are the encoder's. */
module CsvOutput {
  import opened Logs
  import opened Strings
  import opened Writer

  /** fixedColumns */
  const FixedColumns: seq<string> := ["timestamp", "host", "service", "status", "message", "tags"]

  /** The cell of column `col` for `log` (the switch of writeRow). */
  function Cell(col: string, log: Log): string
  {
    if col == "timestamp" then (if log.timestamp.Some? then log.timestamp.value else "")
    else if col == "host" then log.host
    else if col == "service" then log.service
    else if col == "status" then log.status
    else if col == "message" then log.message
    else if col == "tags" then Join(log.tags, ";")
    else if col in log.attributes then FlattenValue(log.attributes[col])
    else ""
  }

  /** The row of `log` under `headers`: one cell per column. */
  function Row(headers: seq<string>, log: Log): (row: seq<string>)
    ensures |row| == |headers|
  {
    seq(|headers|, i requires 0 <= i < |headers| => Cell(headers[i], log))
  }

  /** The rows of the records under `headers`, in record order. */
  function Table(headers: seq<string>, logs: seq<Log>): seq<seq<string>>
  {
    if |logs| == 0 then []
    else Table(headers, logs[..|logs| - 1]) + [Row(headers, logs[|logs| - 1])]
  }

  /** Every custom-attribute key of the records. */
  function AttrKeys(logs: seq<Log>): set<string>
  {
    if |logs| == 0 then {}
    else AttrKeys(logs[..|logs| - 1]) + logs[|logs| - 1].attributes.Keys
  }

  /** `headers` is the frozen schema for the attribute keys `keys`: the fixed
      columns, then each key once, in sorted order. */
  predicate IsHeader(headers: seq<string>, keys: set<string>)
  {
    |headers| >= |FixedColumns| && headers[..|FixedColumns|] == FixedColumns
    && SortedListing(headers[|FixedColumns|..], keys)
  }

  lemma {:induction false} TableSnoc(headers: seq<string>, logs: seq<Log>, log: Log)
    ensures Table(headers, logs + [log]) == Table(headers, logs) + [Row(headers, log)]
  {
    assert (logs + [log])[..|logs|] == logs;
  }

  lemma {:induction false} AttrKeysSnoc(logs: seq<Log>, log: Log)
    ensures AttrKeys(logs + [log]) == AttrKeys(logs) + log.attributes.Keys
  {
    assert (logs + [log])[..|logs|] == logs;
  }

  /** Before the freeze, every record is held and nothing is written;
      after it, the header row is the schema of the records seen up to the
      freeze, and every record has exactly one row, in order. */
  ghost predicate Consistent(attrSet: set<string>, started: bool, buffer: seq<Log>,
                             headers: seq<string>, rows: seq<seq<string>>, calls: seq<Call>)
  {
    && attrSet == AttrKeys(Written(calls))
    && started == Frozen(calls)
    && (!started ==> buffer == Written(calls) && headers == [] && rows == [])
    && (started ==>
          && buffer == []
          && IsHeader(headers, AttrKeys(Written(calls)[..FrozenAfter(calls)]))
          && rows == [headers] + Table(headers, Written(calls)))
  }

  /** Before the freeze, a record is held in the buffer. */
  lemma {:induction false} HoldKeepsConsistent(attrSet: set<string>, buffer: seq<Log>, calls: seq<Call>, log: Log)
    requires Consistent(attrSet, false, buffer, [], [], calls)
    ensures Consistent(attrSet + log.attributes.Keys, false, buffer + [log], [], [],
                       calls + [Call.WriteLog(log)])
  {
    WrittenSnoc(calls, Call.WriteLog(log));
    FrozenSnoc(calls, Call.WriteLog(log));
    AttrKeysSnoc(Written(calls), log);
  }

  /** After the freeze, a record gets its row at once and the header stays. */
  lemma {:induction false} RowKeepsConsistent(attrSet: set<string>, headers: seq<string>, rows: seq<seq<string>>,
                           calls: seq<Call>, log: Log)
    requires Consistent(attrSet, true, [], headers, rows, calls)
    ensures Consistent(attrSet + log.attributes.Keys, true, [], headers, rows + [Row(headers, log)],
                       calls + [Call.WriteLog(log)])
  {
    var after := calls + [Call.WriteLog(log)];
    WrittenSnoc(calls, Call.WriteLog(log));
    FrozenSnoc(calls, Call.WriteLog(log));
    AttrKeysSnoc(Written(calls), log);
    TableSnoc(headers, Written(calls), log);
    assert Written(after)[..FrozenAfter(after)] == Written(calls)[..FrozenAfter(calls)];
  }

  class CsvWriter {
    var headers: seq<string>
    var attrSet: set<string>
    var buffer: seq<Log>
    var started: bool
    /** The rows written to the CSV encoder so far, in order. */
    var rows: seq<seq<string>>
    ghost var calls: seq<Call>

    /** The writer's state is the one its call history determines. */
    ghost predicate Valid()
      reads this
    {
      Consistent(attrSet, started, buffer, headers, rows, calls)
    }

    /** newCSVWriter */
    constructor ()
      ensures Valid() && calls == [] && rows == []
    {
      headers, attrSet, buffer, started, rows := [], {}, [], false, [];
      calls := [];
    }

    method Start()
      requires Valid()
      modifies this
      ensures Valid() && calls == old(calls) + [Call.Start]
      ensures rows == old(rows) && started == old(started) && headers == old(headers)
    {
      WrittenSnoc(calls, Call.Start);
      FrozenSnoc(calls, Call.Start);
      calls := calls + [Call.Start];
    }

    /** WriteLog: collect the record's keys; hold it before the freeze, write
        its row after. */
    method WriteLog(log: Log)
      requires Valid()
      modifies this
      ensures Valid() && calls == old(calls) + [Call.WriteLog(log)]
      ensures started == old(started) && headers == old(headers)
      ensures attrSet == old(attrSet) + log.attributes.Keys
      ensures !started ==> rows == [] && buffer == old(buffer) + [log]
      ensures started ==> rows == old(rows) + [Row(headers, log)]
    {
      ghost var attrSet0 := attrSet;
      AddKeys(log.attributes.Keys);
      if !started {
        HoldKeepsConsistent(attrSet0, buffer, calls, log);
        buffer := buffer + [log];
      } else {
        RowKeepsConsistent(attrSet0, headers, rows, calls, log);
        WriteRow(log);
      }
      calls := calls + [Call.WriteLog(log)];
    }

    /** Marks every key of one record's custom attributes as seen. */
    method AddKeys(keys: set<string>)
      modifies this`attrSet
      ensures attrSet == old(attrSet) + keys
    {
      var rest := keys;
      while rest != {}
        invariant rest <= keys
        invariant attrSet == old(attrSet) + (keys - rest)
        decreases rest
      {
        var key :| key in rest;
        attrSet := attrSet + {key};
        rest := rest - {key};
      }
    }

    /** The column names of the attribute keys, in Go's map order (any
        order), then sorted. */
    method SortedAttrColumns() returns (attrCols: seq<string>)
      ensures SortedListing(attrCols, attrSet)
    {
      attrCols := [];
      var rest := attrSet;
      while rest != {}
        invariant rest <= attrSet
        invariant forall k :: k in attrCols <==> k in attrSet - rest
        invariant forall i, j :: 0 <= i < j < |attrCols| ==> attrCols[i] != attrCols[j]
        decreases rest
      {
        var k :| k in rest;
        assert k !in attrCols;
        attrCols := attrCols + [k];
        rest := rest - {k};
      }
      attrCols := Sort(attrCols);
    }

    /** flushBuffer: freeze the header, write it, then write the held
        records in order and empty the buffer. */
    method FlushBuffer()
      modifies this
      ensures started && buffer == [] && attrSet == old(attrSet) && calls == old(calls)
      ensures IsHeader(headers, attrSet)
      ensures rows == old(rows) + [headers] + Table(headers, old(buffer))
    {
      var attrCols := SortedAttrColumns();
      headers := FixedColumns + attrCols;
      assert headers[|FixedColumns|..] == attrCols;
      rows := rows + [headers];
      var i := 0;
      while i < |buffer|
        invariant 0 <= i <= |buffer| && headers == FixedColumns + attrCols
        invariant rows == old(rows) + [headers] + Table(headers, buffer[..i])
        invariant buffer == old(buffer) && attrSet == old(attrSet) && calls == old(calls)
      {
        WriteRow(buffer[i]);
        TableSnoc(headers, buffer[..i], buffer[i]);
        assert buffer[..i + 1] == buffer[..i] + [buffer[i]];
        i := i + 1;
      }
      assert buffer[..i] == old(buffer);
      buffer := [];
      started := true;
    }

    /** writeRow: one cell per header column. */
    method WriteRow(log: Log)
      modifies this`rows
      ensures rows == old(rows) + [Row(headers, log)]
    {
      var row := new string[|headers|];
      for i := 0 to |headers|
        invariant rows == old(rows)
        invariant forall j :: 0 <= j < i ==> row[j] == Cell(headers[j], log)
      {
        row[i] := Cell(headers[i], log);
      }
      assert row[..] == Row(headers, log);
      rows := rows + [row[..]];
    }

    /** FlushPage: the first call freezes the schema; later calls write
        nothing. */
    method FlushPage()
      requires Valid()
      modifies this
      ensures Valid() && calls == old(calls) + [Call.FlushPage]
      ensures started
      ensures !old(started) ==> IsHeader(headers, old(attrSet))
                                && rows == [headers] + Table(headers, old(buffer))
      ensures old(started) ==> rows == old(rows) && headers == old(headers)
    {
      WrittenSnoc(calls, Call.FlushPage);
      FrozenSnoc(calls, Call.FlushPage);
      if !started {
        FlushBuffer();
        assert Written(calls)[..|Written(calls)|] == Written(calls);
      }
      calls := calls + [Call.FlushPage];
    }

    /** End: a writer that never froze freezes now, so the header row is
        written even when there were no records. */
    method End()
      requires Valid()
      modifies this
      ensures Valid() && calls == old(calls) + [Call.End]
      ensures started
      ensures !old(started) ==> IsHeader(headers, old(attrSet))
                                && rows == [headers] + Table(headers, old(buffer))
      ensures old(started) ==> rows == old(rows) && headers == old(headers)
    {
      WrittenSnoc(calls, Call.End);
      FrozenSnoc(calls, Call.End);
      if !started {
        FlushBuffer();
        assert Written(calls)[..|Written(calls)|] == Written(calls);
      }
      calls := calls + [Call.End];
    }
  }

  /** Every record has exactly one row, in record order, laid out against
      the header. */
  lemma {:induction false} TableRows(headers: seq<string>, logs: seq<Log>)
    ensures |Table(headers, logs)| == |logs|
    ensures forall i :: 0 <= i < |logs| ==> Table(headers, logs)[i] == Row(headers, logs[i])
    decreases |logs|
  {
    if |logs| > 0 {
      TableRows(headers, logs[..|logs| - 1]);
    }
  }

  /** A key is collected exactly when some record carries it. */
  lemma {:induction false} AttrKeysMembers(logs: seq<Log>, key: string)
    ensures key in AttrKeys(logs) <==> exists i :: 0 <= i < |logs| && key in logs[i].attributes
    decreases |logs|
  {
    if |logs| > 0 {
      var init := logs[..|logs| - 1];
      AttrKeysMembers(init, key);
      if key in AttrKeys(init) {
        var i :| 0 <= i < |init| && key in init[i].attributes;
        assert logs[i] == init[i];
      }
      if exists i :: 0 <= i < |logs| && key in logs[i].attributes {
        var i :| 0 <= i < |logs| && key in logs[i].attributes;
        if i < |init| {
          assert init[i] == logs[i];
        }
      }
    }
  }

  /** Under a schema header, the first six cells are the record's own
      fields, tags joined by ";". */
  lemma {:induction false} FixedCells(headers: seq<string>, keys: set<string>, log: Log)
    requires IsHeader(headers, keys)
    ensures Row(headers, log)[..|FixedColumns|]
         == [if log.timestamp.Some? then log.timestamp.value else "",
             log.host, log.service, log.status, log.message, Join(log.tags, ";")]
  {
    assert headers[0] == FixedColumns[0] && headers[1] == FixedColumns[1];
    assert headers[2] == FixedColumns[2] && headers[3] == FixedColumns[3];
    assert headers[4] == FixedColumns[4] && headers[5] == FixedColumns[5];
  }

  /** A custom column holds the flattened attribute when the record has the
      key and the empty string when it does not. */
  lemma {:induction false} CustomCells(headers: seq<string>, keys: set<string>, log: Log, i: int)
    requires IsHeader(headers, keys)
    requires |FixedColumns| <= i < |headers| && headers[i] !in FixedColumns
    ensures headers[i] in keys
    ensures Row(headers, log)[i]
         == if headers[i] in log.attributes then FlattenValue(log.attributes[headers[i]]) else ""
  {
    assert headers[i] == headers[|FixedColumns|..][i - |FixedColumns|];
  }

  /** A row depends only on the record's fixed fields and on its attributes
      under header columns: keys outside the header never reach the output. */
  lemma {:induction false} RowIgnoresUnlistedKeys(headers: seq<string>, a: Log, b: Log)
    requires a.timestamp == b.timestamp && a.host == b.host && a.service == b.service
    requires a.status == b.status && a.message == b.message && a.tags == b.tags
    requires forall k :: k in headers ==> (k in a.attributes <==> k in b.attributes)
    requires forall k :: k in headers && k in a.attributes && k in b.attributes ==> a.attributes[k] == b.attributes[k]
    ensures Row(headers, a) == Row(headers, b)
  {
    forall i | 0 <= i < |headers|
      ensures Row(headers, a)[i] == Row(headers, b)[i]
    {
      assert headers[i] in headers;
    }
  }

  /** For a given key set there is one schema header. */
  lemma {:induction false} HeaderUnique(a: seq<string>, b: seq<string>, keys: set<string>)
    requires IsHeader(a, keys) && IsHeader(b, keys)
    ensures a == b
  {
    SortedListingUnique(a[|FixedColumns|..], b[|FixedColumns|..], keys);
    assert a == a[..|FixedColumns|] + a[|FixedColumns|..];
    assert b == b[..|FixedColumns|] + b[|FixedColumns|..];
  }

  predicate Distinct(q: seq<string>)
  {
    forall i, j :: 0 <= i < j < |q| ==> q[i] != q[j]
  }

  lemma {:induction false} FixedColumnsDistinct()
    ensures Distinct(FixedColumns)
  {
  }

  /** The header names each column once exactly when no custom attribute
      key is one of the fixed column names. */
  lemma {:induction false} HeaderDistinct(headers: seq<string>, keys: set<string>)
    requires IsHeader(headers, keys)
    ensures Distinct(headers) <==> forall c :: c in keys ==> c !in FixedColumns
  {
    var n := |FixedColumns|;
    var custom := headers[n..];
    if forall c :: c in keys ==> c !in FixedColumns {
      forall i, j | 0 <= i < j < |headers| ensures headers[i] != headers[j] {
        if j < n {
          assert headers[i] == FixedColumns[i] && headers[j] == FixedColumns[j];
          FixedColumnsDistinct();
        } else if i < n {
          assert headers[j] == custom[j - n] && custom[j - n] in custom;
          assert headers[i] == FixedColumns[i] && FixedColumns[i] in FixedColumns;
        } else {
          assert headers[i] == custom[i - n] && headers[j] == custom[j - n];
          LessIrreflexive(custom[i - n]);
        }
      }
    }
  }

  /** A custom attribute named like a fixed column repeats that column name
      in the header, and both columns show the record's own field: the cell
      of a fixed column never reads the attributes. */
  lemma {:induction false} ShadowedColumn(headers: seq<string>, keys: set<string>, log: Log, c: string)
    requires IsHeader(headers, keys) && c in keys && c in FixedColumns
    ensures exists i, j :: 0 <= i < |FixedColumns| <= j < |headers| && headers[i] == c && headers[j] == c
                           && Row(headers, log)[i] == Cell(c, log) && Row(headers, log)[j] == Cell(c, log)
    ensures Cell(c, log) == Cell(c, log.(attributes := map[]))
  {
    var custom := headers[|FixedColumns|..];
    var i :| 0 <= i < |FixedColumns| && FixedColumns[i] == c;
    var j' :| 0 <= j' < |custom| && custom[j'] == c;
    var j := |FixedColumns| + j';
    assert headers[i] == c by { assert headers[..|FixedColumns|][i] == headers[i]; }
    assert headers[j] == c;
    assert Row(headers, log)[i] == Cell(c, log) && Row(headers, log)[j] == Cell(c, log);
  }

  /** Tags are recoverable from their cell when no tag contains ";". */
  lemma {:induction false} TagsCellRoundTrip(log: Log)
    requires |log.tags| >= 1
    requires forall i :: 0 <= i < |log.tags| ==> ';' !in log.tags[i]
    ensures Split(Join(log.tags, ";"), ';') == log.tags
  {
    SplitJoin(log.tags, ';');
  }
}
