/** The `logWriter` interface (handlers/dd_handler.go:207-213) as a record of
    the calls made on it.  Both writers keep the calls they have received as
    ghost state, and their invariants state what they have output as a
    function of that history. */
module Writer {
  import opened Logs

  /** One call on the writer interface. */
  datatype Call = Start | WriteLog(log: Log) | FlushPage | End

  /** The records passed to WriteLog, in call order. */
  function Written(calls: seq<Call>): seq<Log>
  {
    if |calls| == 0 then []
    else
      var init := Written(calls[..|calls| - 1]);
      match calls[|calls| - 1]
      case WriteLog(log) => init + [log]
      case _ => init
  }

  /** FlushPage or End has been called: the CSV schema is frozen from then on. */
  predicate Frozen(calls: seq<Call>)
  {
    |calls| > 0 && (Frozen(calls[..|calls| - 1]) || calls[|calls| - 1].FlushPage? || calls[|calls| - 1].End?)
  }

  /** How many records had been written when the schema froze (all of them
      while it has not). */
  function FrozenAfter(calls: seq<Call>): (n: nat)
    ensures n <= |Written(calls)|
  {
    if !Frozen(calls) then |Written(calls)|
    else
      var init := calls[..|calls| - 1];
      if Frozen(init) then FrozenAfter(init) else |Written(init)|
  }

  /** WriteLog calls for the records, in order. */
  function Writes(logs: seq<Log>): (calls: seq<Call>)
    ensures |calls| == |logs|
  {
    seq(|logs|, i requires 0 <= i < |logs| => WriteLog(logs[i]))
  }

  lemma {:induction false} WrittenSnoc(calls: seq<Call>, call: Call)
    ensures Written(calls + [call]) == Written(calls) + (if call.WriteLog? then [call.log] else [])
  {
    assert (calls + [call])[..|calls|] == calls;
  }

  lemma {:induction false} FrozenSnoc(calls: seq<Call>, call: Call)
    ensures Frozen(calls + [call]) == (Frozen(calls) || call.FlushPage? || call.End?)
    ensures Frozen(calls) ==> FrozenAfter(calls + [call]) == FrozenAfter(calls)
    ensures !Frozen(calls) && (call.FlushPage? || call.End?) ==> FrozenAfter(calls + [call]) == |Written(calls)|
  {
    assert (calls + [call])[..|calls|] == calls;
  }

  lemma {:induction false} WrittenAppend(calls: seq<Call>, more: seq<Call>)
    ensures Written(calls + more) == Written(calls) + Written(more)
    decreases |more|
  {
    if |more| == 0 {
      assert calls + more == calls;
    } else {
      assert (calls + more)[..|calls + more| - 1] == calls + more[..|more| - 1];
      WrittenAppend(calls, more[..|more| - 1]);
    }
  }

  lemma {:induction false} WrittenWrites(logs: seq<Log>)
    ensures Written(Writes(logs)) == logs
    decreases |logs|
  {
    if |logs| > 0 {
      var init := logs[..|logs| - 1];
      assert Writes(logs)[..|logs| - 1] == Writes(init);
      WrittenWrites(init);
    }
  }

  /** A stretch of calls without FlushPage or End leaves the freeze point
      where it was (or, before any freeze, still open). */
  lemma {:induction false} FrozenAppendWrites(calls: seq<Call>, logs: seq<Log>)
    ensures Frozen(calls + Writes(logs)) == Frozen(calls)
    ensures Frozen(calls) ==> FrozenAfter(calls + Writes(logs)) == FrozenAfter(calls)
    decreases |logs|
  {
    if |logs| == 0 {
      assert calls + Writes(logs) == calls;
    } else {
      var init := logs[..|logs| - 1];
      assert Writes(logs) == Writes(init) + [WriteLog(logs[|logs| - 1])];
      assert (calls + Writes(logs))[..|calls + Writes(logs)| - 1] == calls + Writes(init);
      FrozenAppendWrites(calls, init);
    }
  }
}
