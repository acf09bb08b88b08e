/** The Google Analytics exporter's conversion of OpenTelemetry log records into
    Measurement Protocol events: a record becomes an event when it is tagged as one,
    and the traversal over all records counts the ones it drops. */
module GoogleAnalytics {
  import opened Wrappers

  /** A log attribute value: a string, a map of attributes, or a value of any other
      kind, which carries the text `AsString` renders for it. */
  datatype Value = Str(str: string) | Map(entries: map<string, Value>) | Other(text: string) {

    /** `Value.Str()`: "" for a value that is not a string. */
    function StrValue(): string {
      if Str? then str else ""
    }

    /** `Value.Map()`, taken as the empty map for a value that is not a map. */
    function MapValue(): map<string, Value> {
      if Map? then entries else map[]
    }

    /** `Value.AsString()`; the JSON rendering of a map is not modelled (it gives ""). */
    function AsString(): string {
      match this
      case Str(s) => s
      case Other(t) => t
      case Map(_) => ""
    }
  }

  datatype LogRecord = LogRecord(attributes: map<string, Value>)
  datatype ScopeLogs = ScopeLogs(logRecords: seq<LogRecord>)
  datatype ResourceLogs = ResourceLogs(scopeLogs: seq<ScopeLogs>)
  datatype Logs = Logs(resourceLogs: seq<ResourceLogs>)

  datatype GAMPEvent = GAMPEvent(name: string, params: map<string, Value>)

  /** What `logToGAMPEvent` returns: the event (`None` is nil), the valid flag and the
      error (`None` is nil). */
  datatype Conversion = Conversion(event: Option<GAMPEvent>, valid: bool, err: Option<string>)

  // ---------------------------------------------------------------- one record

  /** `logToGAMPEvent`. A record is an event exactly when its "log_type" is the string
      "ga_event" and its "ga_params" is a map holding "ga_event_name"; the event is named
      after that entry and its parameters are the whole map. */
  function LogToGAMPEvent(log: LogRecord): (c: Conversion)
    ensures c.err == None
    ensures c.event.Some? <==> c.valid
    ensures c.valid <==>
              var a := log.attributes;
              && "log_type" in a && a["log_type"] == Str("ga_event")
              && "ga_params" in a && a["ga_params"].Map?
              && "ga_event_name" in a["ga_params"].entries
    ensures c.valid ==>
              && c.event.value.params == log.attributes["ga_params"].entries
              && "ga_event_name" in c.event.value.params
              && c.event.value.name == c.event.value.params["ga_event_name"].AsString()
  {
    var attributes := log.attributes;
    if "log_type" !in attributes then Conversion(None, false, None)
    else if attributes["log_type"].StrValue() != "ga_event" then Conversion(None, false, None)
    else if "ga_params" !in attributes then Conversion(None, false, None)
    else
      var params := attributes["ga_params"].MapValue();
      if "ga_event_name" !in params then Conversion(None, false, None)
      else Conversion(Some(GAMPEvent(params["ga_event_name"].AsString(), params)), true, None)
  }

  /** A "log_type" of another kind is no event, whatever text it renders as. */
  lemma NonStringLogTypeRejected(log: LogRecord)
    requires "log_type" in log.attributes && !log.attributes["log_type"].Str?
    ensures !LogToGAMPEvent(log).valid && LogToGAMPEvent(log).event == None
  {
  }

  // ---------------------------------------------------------------- traversal order

  /** The records of a scope list, scope by scope. */
  function ScopeRecords(sls: seq<ScopeLogs>): seq<LogRecord> {
    if sls == [] then []
    else ScopeRecords(sls[..|sls| - 1]) + sls[|sls| - 1].logRecords
  }

  /** The records of a resource list, resource by resource. */
  function ResourceRecords(rls: seq<ResourceLogs>): seq<LogRecord> {
    if rls == [] then []
    else ResourceRecords(rls[..|rls| - 1]) + ScopeRecords(rls[|rls| - 1].scopeLogs)
  }

  /** All records of a batch in resource, then scope, then record order. */
  function Records(ld: Logs): seq<LogRecord> {
    ResourceRecords(ld.resourceLogs)
  }

  // ---------------------------------------------------------------- what the loop accumulates

  /** What the loop appends to `out` for one record: its event, nil or not, unless the
      conversion reported an error. */
  function Appended(log: LogRecord): seq<Option<GAMPEvent>> {
    var c := LogToGAMPEvent(log);
    if c.err.None? then [c.event] else []
  }

  /** What the loop adds to `dropped` for one record. */
  function DropCount(log: LogRecord): nat {
    var c := LogToGAMPEvent(log);
    (if !c.valid then 1 else 0) + (if c.err.Some? then 1 else 0)
  }

  function Events(recs: seq<LogRecord>): seq<Option<GAMPEvent>> {
    if recs == [] then [] else Events(recs[..|recs| - 1]) + Appended(recs[|recs| - 1])
  }

  function Dropped(recs: seq<LogRecord>): nat {
    if recs == [] then 0 else Dropped(recs[..|recs| - 1]) + DropCount(recs[|recs| - 1])
  }

  lemma EventsSnoc(recs: seq<LogRecord>, log: LogRecord)
    ensures Events(recs + [log]) == Events(recs) + Appended(log)
    ensures Dropped(recs + [log]) == Dropped(recs) + DropCount(log)
  {
    assert (recs + [log])[..|recs|] == recs;
  }

  lemma ScopeRecordsSnoc(sls: seq<ScopeLogs>, j: nat)
    requires j < |sls|
    ensures ScopeRecords(sls[..j + 1]) == ScopeRecords(sls[..j]) + sls[j].logRecords
  {
    assert sls[..j + 1][..j] == sls[..j];
  }

  lemma ResourceRecordsSnoc(rls: seq<ResourceLogs>, i: nat)
    requires i < |rls|
    ensures ResourceRecords(rls[..i + 1]) == ResourceRecords(rls[..i]) + ScopeRecords(rls[i].scopeLogs)
  {
    assert rls[..i + 1][..i] == rls[..i];
  }

  /** `logsToGALogs`: converts every record of the batch in traversal order, returning
      what was appended to `out` and the `dropped` counter. */
  method LogsToGALogs(ld: Logs) returns (out: seq<Option<GAMPEvent>>, dropped: int)
    ensures out == Events(Records(ld))
    ensures dropped == Dropped(Records(ld))
  {
    var n := |ld.resourceLogs|;
    if n == 0 {
      return [], 0;
    }
    dropped, out := 0, [];
    ghost var seen: seq<LogRecord> := [];
    var rls := ld.resourceLogs;
    var i := 0;
    while i < |rls|
      invariant 0 <= i <= |rls|
      invariant seen == ResourceRecords(rls[..i])
      invariant out == Events(seen) && dropped == Dropped(seen)
    {
      var sls := rls[i].scopeLogs;
      var j := 0;
      ResourceJoin(rls, i, sls, 0);
      while j < |sls|
        invariant 0 <= j <= |sls|
        invariant seen == ResourceRecords(rls[..i]) + ScopeRecords(sls[..j])
        invariant out == Events(seen) && dropped == Dropped(seen)
      {
        var logs := sls[j].logRecords;
        ghost var before := seen;
        var k := 0;
        while k < |logs|
          invariant 0 <= k <= |logs|
          invariant seen == before + logs[..k]
          invariant out == Events(seen) && dropped == Dropped(seen)
        {
          var log := logs[k];
          var c := LogToGAMPEvent(log);
          if !c.valid {
            dropped := dropped + 1;
          }
          if c.err.Some? {
            dropped := dropped + 1;
          } else {
            out := out + [c.event];
          }
          RecordStep(log);
          EventsSnoc(seen, log);
          SnocPrefix(before, logs, k);
          seen := seen + [log];
          k := k + 1;
        }
        ScopeJoin(ResourceRecords(rls[..i]), sls, j);
        j := j + 1;
      }
      ResourceJoin(rls, i, sls, j);
      i := i + 1;
    }
    assert rls[..i] == rls;
  }

  /** What one record adds to `out` and to `dropped`. */
  lemma RecordStep(log: LogRecord)
    ensures Appended(log) == [LogToGAMPEvent(log).event]
    ensures DropCount(log) == if LogToGAMPEvent(log).valid then 0 else 1
  {
  }

  lemma SnocPrefix(before: seq<LogRecord>, logs: seq<LogRecord>, k: nat)
    requires k < |logs|
    ensures before + logs[..k + 1] == (before + logs[..k]) + [logs[k]]
  {
  }

  /** After the records of scope `j`, the records seen are those of scopes 0..j. */
  lemma ScopeJoin(prefix: seq<LogRecord>, sls: seq<ScopeLogs>, j: nat)
    requires j < |sls|
    ensures prefix + ScopeRecords(sls[..j]) + sls[j].logRecords[..|sls[j].logRecords|] ==
            prefix + ScopeRecords(sls[..j + 1])
  {
    ScopeRecordsSnoc(sls, j);
    assert sls[j].logRecords[..|sls[j].logRecords|] == sls[j].logRecords;
  }

  /** Before resource `i`'s scopes (`j` = 0) and after all of them (`j` = their count). */
  lemma ResourceJoin(rls: seq<ResourceLogs>, i: nat, sls: seq<ScopeLogs>, j: nat)
    requires i < |rls| && sls == rls[i].scopeLogs
    requires j == 0 || j == |sls|
    ensures j == 0 ==> ResourceRecords(rls[..i]) + ScopeRecords(sls[..j]) == ResourceRecords(rls[..i])
    ensures j == |sls| ==> ResourceRecords(rls[..i]) + ScopeRecords(sls[..j]) == ResourceRecords(rls[..i + 1])
  {
    ResourceRecordsSnoc(rls, i);
    if j == 0 {
      assert sls[..0] == [];
    }
    if j == |sls| {
      assert sls[..j] == sls;
    }
  }

  // ---------------------------------------------------------------- what the result means

  /** Since the error is always nil, every record contributes exactly one entry to `out`,
      in order: its event when it is valid, nil otherwise. */
  lemma {:induction false} EventsCoverEveryRecord(recs: seq<LogRecord>)
    ensures |Events(recs)| == |recs|
    ensures forall k | 0 <= k < |recs| :: Events(recs)[k] == LogToGAMPEvent(recs[k]).event
  {
    if recs != [] {
      var init := recs[..|recs| - 1];
      EventsCoverEveryRecord(init);
      forall k | 0 <= k < |recs| ensures Events(recs)[k] == LogToGAMPEvent(recs[k]).event {
        if k < |init| {
          assert recs[k] == init[k];
        }
      }
    }
  }

  /** The number of nil entries. */
  function CountNil(events: seq<Option<GAMPEvent>>): nat {
    if events == [] then 0
    else CountNil(events[..|events| - 1]) + (if events[|events| - 1].None? then 1 else 0)
  }

  /** `dropped` counts exactly the invalid records, which are exactly the nil entries of
      `out`. */
  lemma {:induction false} DroppedAreNilEvents(recs: seq<LogRecord>)
    ensures Dropped(recs) == CountNil(Events(recs))
    ensures Dropped(recs) <= |recs|
  {
    if recs != [] {
      var init := recs[..|recs| - 1];
      DroppedAreNilEvents(init);
      var e := Events(init);
      var last := LogToGAMPEvent(recs[|recs| - 1]);
      assert Events(recs) == e + [last.event];
      assert (e + [last.event])[..|e|] == e;
    }
  }

  /** An empty batch gives no events and nothing dropped. */
  lemma EmptyBatch(ld: Logs)
    requires ld.resourceLogs == []
    ensures Events(Records(ld)) == [] && Dropped(Records(ld)) == 0
  {
  }
}
