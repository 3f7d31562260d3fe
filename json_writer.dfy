/** jsonWriter (handlers/dd_handler.go:217-248): streams one JSON array, an
    element per record, with a separator decided by a running count. */
module JsonOutput {
  import opened Wrappers
  import opened Logs
  import opened Strings
  import opened Writer

  /** The text the writer has put in the output buffer after the calls. */
  function JsonText(calls: seq<Call>): string
  {
    if |calls| == 0 then ""
    else
      var init := calls[..|calls| - 1];
      JsonText(init) + Piece(calls[|calls| - 1], |Written(init)|)
  }

  /** What one call writes, `count` records having been written before it. */
  function Piece(call: Call, count: nat): string
  {
    match call
    case Start => "[\n"
    case WriteLog(log) => (if count > 0 then ",\n" else "") + ("  " + log.json)
    case FlushPage => ""
    case End => "\n]\n"
  }

  lemma {:induction false} JsonTextSnoc(calls: seq<Call>, call: Call)
    ensures JsonText(calls + [call]) == JsonText(calls) + Piece(call, |Written(calls)|)
  {
    assert (calls + [call])[..|calls|] == calls;
  }

  /** Each record's encoding, indented by two spaces. */
  function Entries(logs: seq<Log>): (entries: seq<string>)
    ensures |entries| == |logs|
  {
    seq(|logs|, i requires 0 <= i < |logs| => "  " + logs[i].json)
  }

  /** The JSON document for the records: the opening bracket, the entries
      separated by ",\n", and, when the writer was ended, the closing bracket. */
  function JsonArray(logs: seq<Log>, closed: bool): string
  {
    "[\n" + Join(Entries(logs), ",\n") + (if closed then "\n]\n" else "")
  }

  class JsonWriter {
    /** What the writer has written to the buffered output. */
    var out: string
    var count: int
    ghost var calls: seq<Call>

    ghost predicate Valid()
      reads this
    {
      count == |Written(calls)| && out == JsonText(calls)
    }

    /** newJSONWriter */
    constructor ()
      ensures Valid() && calls == [] && out == ""
    {
      out, count := "", 0;
      calls := [];
    }

    method Start()
      requires Valid()
      modifies this
      ensures Valid() && calls == old(calls) + [Call.Start]
      ensures out == old(out) + "[\n" && count == old(count)
    {
      out := out + "[\n";
      JsonTextSnoc(calls, Call.Start);
      WrittenSnoc(calls, Call.Start);
      calls := calls + [Call.Start];
    }

    method WriteLog(log: Log)
      requires Valid()
      modifies this
      ensures Valid() && calls == old(calls) + [Call.WriteLog(log)]
      ensures out == old(out) + (if old(count) > 0 then ",\n" else "") + ("  " + log.json)
      ensures count == old(count) + 1
    {
      ghost var piece := Piece(Call.WriteLog(log), count);
      if count > 0 {
        out := out + ",\n";
        ConcatAssoc(old(out), ",\n", "  " + log.json);
      }
      out := out + ("  " + log.json);
      assert out == old(out) + piece;
      count := count + 1;
      JsonTextSnoc(calls, Call.WriteLog(log));
      WrittenSnoc(calls, Call.WriteLog(log));
      calls := calls + [Call.WriteLog(log)];
    }

    method FlushPage()
      requires Valid()
      modifies this
      ensures Valid() && calls == old(calls) + [Call.FlushPage]
      ensures out == old(out) && count == old(count)
    {
      JsonTextSnoc(calls, Call.FlushPage);
      WrittenSnoc(calls, Call.FlushPage);
      calls := calls + [Call.FlushPage];
    }

    method End()
      requires Valid()
      modifies this
      ensures Valid() && calls == old(calls) + [Call.End]
      ensures out == old(out) + "\n]\n" && count == old(count)
    {
      out := out + "\n]\n";
      JsonTextSnoc(calls, Call.End);
      WrittenSnoc(calls, Call.End);
      calls := calls + [Call.End];
    }
  }

  lemma {:induction false} JoinAppend(parts: seq<string>, sep: string, last: string)
    ensures Join(parts + [last], sep) == Join(parts, sep) + (if |parts| > 0 then sep else "") + last
    decreases |parts|
  {
    if |parts| == 1 {
      assert parts + [last] == [parts[0], last];
    } else if |parts| > 1 {
      assert (parts + [last])[1..] == parts[1..] + [last];
      JoinAppend(parts[1..], sep, last);
    }
  }

  /** A call history with no Start and no End: WriteLog and FlushPage only. */
  predicate Body(calls: seq<Call>)
  {
    forall i :: 0 <= i < |calls| ==> calls[i].WriteLog? || calls[i].FlushPage?
  }

  /** After Start and any mix of WriteLog and FlushPage, the output is the
      open array of the written records: "[\n", then each record indented by
      two spaces, with ",\n" between neighbours and no separator before the
      first or after the last. */
  lemma {:induction false} OpenArray(body: seq<Call>)
    requires Body(body)
    ensures JsonText([Call.Start] + body) == JsonArray(Written(body), false)
    decreases |body|
  {
    if |body| == 0 {
      assert [Call.Start] + body == [] + [Call.Start];
      JsonTextSnoc([], Call.Start);
    } else {
      var init, last := body[..|body| - 1], body[|body| - 1];
      assert body == init + [last];
      OpenArray(init);
      OpenArrayStep(init, last);
    }
  }

  /** One more WriteLog or FlushPage keeps the output the open array. */
  lemma {:induction false} OpenArrayStep(init: seq<Call>, last: Call)
    requires last.WriteLog? || last.FlushPage?
    requires JsonText([Call.Start] + init) == JsonArray(Written(init), false)
    ensures JsonText([Call.Start] + (init + [last])) == JsonArray(Written(init + [last]), false)
  {
    assert [Call.Start] + (init + [last]) == ([Call.Start] + init) + [last];
    JsonTextSnoc([Call.Start] + init, last);
    WrittenAfterStart(init);
    WrittenSnoc(init, last);
    if last.WriteLog? {
      ArrayGrows(Written(init), last.log);
    } else {
      assert JsonText([Call.Start] + (init + [last])) == JsonText([Call.Start] + init) + "";
    }
  }

  /** Appending a record to the open array adds the separator (when there
      was an element before) and the new entry. */
  lemma {:induction false} ArrayGrows(before: seq<Log>, log: Log)
    ensures JsonArray(before + [log], false)
         == JsonArray(before, false) + Piece(Call.WriteLog(log), |before|)
  {
    var entry := "  " + log.json;
    var sep := if |before| > 0 then ",\n" else "";
    var joined := Join(Entries(before), ",\n");
    EntriesAppend(before, log);
    JoinAppend(Entries(before), ",\n", entry);
    assert Join(Entries(before + [log]), ",\n") == joined + sep + entry;
    calc {
      JsonArray(before + [log], false);
      "[\n" + (joined + sep + entry) + "";
      { ConcatAssoc(joined, sep, entry); }
      "[\n" + (joined + (sep + entry));
      { ConcatAssoc("[\n", joined, sep + entry); }
      ("[\n" + joined) + (sep + entry);
      JsonArray(before, false) + (sep + entry);
    }
  }

  lemma {:induction false} EntriesAppend(logs: seq<Log>, log: Log)
    ensures Entries(logs + [log]) == Entries(logs) + ["  " + log.json]
  {
    var a, b := Entries(logs + [log]), Entries(logs) + ["  " + log.json];
    assert |a| == |b|;
    forall i | 0 <= i < |a| ensures a[i] == b[i] {
      if i < |logs| {
        assert (logs + [log])[i] == logs[i];
      }
    }
  }

  lemma {:induction false} WrittenAfterStart(calls: seq<Call>)
    ensures Written([Call.Start] + calls) == Written(calls)
  {
    WrittenAppend([Call.Start], calls);
    assert [Call.Start][..0] == [];
  }

  /** Ending the writer closes the array: the whole output is a complete
      JSON array of the written records. */
  lemma {:induction false} ClosedArray(body: seq<Call>)
    requires Body(body)
    ensures JsonText([Call.Start] + body + [Call.End]) == JsonArray(Written(body), true)
  {
    JsonTextSnoc([Call.Start] + body, Call.End);
    WrittenAfterStart(body);
    OpenArray(body);
  }

  /** With no records the document is the two brackets on their own lines,
      with an empty line between them. */
  lemma {:induction false} EmptyArray()
    ensures JsonArray([], true) == "[\n\n]\n"
  {
  }

  /** A single record has no separator: no trailing comma. */
  lemma {:induction false} SingleElementArray(log: Log)
    ensures JsonArray([log], true) == "[\n" + "  " + log.json + "\n]\n"
  {
    assert Entries([log]) == ["  " + log.json];
  }
}
