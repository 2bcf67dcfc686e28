/**
 * Turning the batch of messages into usage records: each message is
 * checked for its keys, charged either what its report says or the
 * locally calculated credits, and recorded; the first error ends the batch.
 * The report lookup is a parameter: a function from report id to outcome.
 */
module UsageResolver {
  import opened Common
  import opened ReportLookup
  import opened CreditCalculator

  /**
   * One element of the message batch: a JSON object, whose keys may be
   * missing, or any other JSON value.
   */
  datatype RawMessage =
    | NotAnObject
    | Message(id: Option<int>, timestamp: Option<string>, text: Option<string>, reportId: Option<string>)

  /** One entry of the usage list; `reportName` is absent unless a named report was used. */
  datatype UsageRecord = UsageRecord(messageId: int, timestamp: string, creditsUsed: int, reportName: Option<string>)

  /** What ends the processing of a batch. */
  datatype Error =
    | InvalidFormat            // the message is not a JSON object
    | MissingKey(key: string)  // a required key is absent
    | ReportError(kind: FatalKind)  // the report lookup failed

  /** Python truthiness of an optional string: present and not empty. */
  predicate Truthy(s: Option<string>) {
    s.Some? && s.value != ""
  }

  /** A message with every key that processing requires. */
  predicate HasRequiredKeys(m: RawMessage) {
    m.Message? && m.id.Some? && m.timestamp.Some? && m.text.Some?
  }

  /**
   * `process_report`: a non-empty report gives its `name` (possibly absent)
   * and its `credit_cost` verbatim (0 when absent); no report, or an empty
   * one, gives no name and the locally calculated credits.
   */
  function ProcessReport(reportId: string, text: string, lookup: string -> LookupOutcome)
    : (r: Result<(Option<string>, int), FatalKind>)
    ensures r.Err? <==> lookup(reportId).Fatal?
    ensures r.Err? ==> r.error == lookup(reportId).kind
    ensures r.Ok? && r.value.1 != Credits(text) ==> lookup(reportId).Found? && IsNonEmpty(lookup(reportId).data)
    ensures r.Ok? && r.value.0.Some? ==> lookup(reportId).Found? && r.value.0 == lookup(reportId).data.name
    ensures lookup(reportId).Found? && IsNonEmpty(lookup(reportId).data) ==>
      r == Ok((lookup(reportId).data.name, lookup(reportId).data.creditCost.GetOr(0)))
    ensures lookup(reportId).NotFound? || (lookup(reportId).Found? && !IsNonEmpty(lookup(reportId).data)) ==>
      r == Ok((None, Credits(text)))
  {
    var outcome := lookup(reportId);
    if outcome.Fatal? then Err(outcome.kind)
    else if outcome.Found? && IsNonEmpty(outcome.data) then
      Ok((outcome.data.name, outcome.data.creditCost.GetOr(0)))
    else
      Ok((None, Credits(text)))
  }

  /**
   * The specification of `process_message`. The keys are read in the order
   * id, timestamp, text: the text is read before the report is looked up.
   */
  function Resolve(m: RawMessage, lookup: string -> LookupOutcome): Result<UsageRecord, Error> {
    if m.NotAnObject? then Err(InvalidFormat)
    else if m.id.None? then Err(MissingKey("id"))
    else if m.timestamp.None? then Err(MissingKey("timestamp"))
    else if m.text.None? then Err(MissingKey("text"))
    else if Truthy(m.reportId) then
      match ProcessReport(m.reportId.value, m.text.value, lookup)
      case Err(kind) => Err(ReportError(kind))
      case Ok((name, credits)) =>
        Ok(UsageRecord(m.id.value, m.timestamp.value, credits, if Truthy(name) then name else None))
    else
      Ok(UsageRecord(m.id.value, m.timestamp.value, Credits(m.text.value), None))
  }

  /** `process_message`: build the entry, then add the report name if there is one. */
  method ProcessMessage(m: RawMessage, lookup: string -> LookupOutcome) returns (r: Result<UsageRecord, Error>)
    ensures r == Resolve(m, lookup)
  {
    if m.NotAnObject? {
      return Err(InvalidFormat);
    }
    if m.id.None? {
      return Err(MissingKey("id"));
    }
    if m.timestamp.None? {
      return Err(MissingKey("timestamp"));
    }
    if m.text.None? {
      return Err(MissingKey("text"));
    }
    var reportName: Option<string>;
    var creditsUsed: int;
    if Truthy(m.reportId) {
      var report := ProcessReport(m.reportId.value, m.text.value, lookup);
      if report.Err? {
        return Err(ReportError(report.error));
      }
      reportName, creditsUsed := report.value.0, report.value.1;
    } else {
      reportName := None;
      creditsUsed := Credits(m.text.value);
    }
    var entry := UsageRecord(m.id.value, m.timestamp.value, creditsUsed, None);
    if Truthy(reportName) {
      entry := entry.(reportName := reportName);
    }
    return Ok(entry);
  }

  // ---------------------------------------------------------------------
  // Properties of one message
  // ---------------------------------------------------------------------

  /** Which error a message raises, and that nothing else raises one. */
  lemma ResolveErrors(m: RawMessage, lookup: string -> LookupOutcome)
    ensures Resolve(m, lookup) == Err(InvalidFormat) <==> m.NotAnObject?
    ensures Resolve(m, lookup) == Err(MissingKey("id")) <==> m.Message? && m.id.None?
    ensures Resolve(m, lookup) == Err(MissingKey("timestamp")) <==>
      m.Message? && m.id.Some? && m.timestamp.None?
    ensures Resolve(m, lookup) == Err(MissingKey("text")) <==>
      m.Message? && m.id.Some? && m.timestamp.Some? && m.text.None?
    ensures Resolve(m, lookup).Err? && Resolve(m, lookup).error.ReportError? <==>
      HasRequiredKeys(m) && Truthy(m.reportId) && lookup(m.reportId.value).Fatal?
    ensures Resolve(m, lookup).Err? && Resolve(m, lookup).error.ReportError? ==>
      Resolve(m, lookup).error.kind == lookup(m.reportId.value).kind
  {
  }

  /** A non-empty report found for a truthy report id overrides the local calculation verbatim. */
  lemma ResolveUsesFoundReport(m: RawMessage, lookup: string -> LookupOutcome)
    requires HasRequiredKeys(m) && Truthy(m.reportId)
    requires lookup(m.reportId.value).Found? && IsNonEmpty(lookup(m.reportId.value).data)
    ensures var d := lookup(m.reportId.value).data;
      Resolve(m, lookup) ==
        Ok(UsageRecord(m.id.value, m.timestamp.value, d.creditCost.GetOr(0), if Truthy(d.name) then d.name else None))
  {
  }

  /** Without a truthy report id, or when no (non-empty) report is found, the local credits are used and no name. */
  lemma ResolveFallsBackToCredits(m: RawMessage, lookup: string -> LookupOutcome)
    requires HasRequiredKeys(m)
    requires !Truthy(m.reportId) || lookup(m.reportId.value).NotFound?
      || (lookup(m.reportId.value).Found? && !IsNonEmpty(lookup(m.reportId.value).data))
    ensures Resolve(m, lookup) == Ok(UsageRecord(m.id.value, m.timestamp.value, Credits(m.text.value), None))
  {
  }

  /**
   * A record's id and timestamp are the message's; a record names a report
   * only when one was found under the message's report id with that
   * (non-empty) name; and credits below one credit can only come from a report.
   */
  lemma ResolvedRecordProvenance(m: RawMessage, lookup: string -> LookupOutcome)
    requires Resolve(m, lookup).Ok?
    ensures var r := Resolve(m, lookup).value;
      && HasRequiredKeys(m)
      && r.messageId == m.id.value && r.timestamp == m.timestamp.value
      && (r.reportName.Some? ==>
            Truthy(m.reportId) && lookup(m.reportId.value).Found?
            && r.reportName == lookup(m.reportId.value).data.name && r.reportName.value != "")
      && (r.creditsUsed < MinimumCredits ==>
            Truthy(m.reportId) && lookup(m.reportId.value).Found?
            && r.creditsUsed == lookup(m.reportId.value).data.creditCost.GetOr(0))
  {
  }

  /**
   * The lookup is consulted for the message's own report id only, so two
   * lookups that agree there (a cached and an uncached one) give the same
   * result, and without a truthy report id the lookup is not consulted.
   */
  lemma ResolveDependsOnlyOnOwnReport(m: RawMessage, l1: string -> LookupOutcome, l2: string -> LookupOutcome)
    requires m.Message? && Truthy(m.reportId) ==> l1(m.reportId.value) == l2(m.reportId.value)
    ensures Resolve(m, l1) == Resolve(m, l2)
  {
  }

  // ---------------------------------------------------------------------
  // The batch
  // ---------------------------------------------------------------------

  /** The specification of `process_messages`: the records in order, or the first error. */
  function ProcessAll(ms: seq<RawMessage>, lookup: string -> LookupOutcome): Result<seq<UsageRecord>, Error>
    decreases |ms|
  {
    if ms == [] then Ok([])
    else
      match ProcessAll(ms[..|ms| - 1], lookup)
      case Err(e) => Err(e)
      case Ok(rs) =>
        match Resolve(ms[|ms| - 1], lookup)
        case Err(e) => Err(e)
        case Ok(r) => Ok(rs + [r])
  }

  /** An error in a prefix of the batch is the error of the whole batch. */
  lemma {:induction false} ProcessAllErrorPersists(ms: seq<RawMessage>, k: nat, lookup: string -> LookupOutcome)
    requires k <= |ms|
    requires ProcessAll(ms[..k], lookup).Err?
    ensures ProcessAll(ms, lookup) == ProcessAll(ms[..k], lookup)
    decreases |ms| - k
  {
    if k < |ms| {
      var next := ms[..k + 1];
      assert next[..k] == ms[..k];
      ProcessAllErrorPersists(ms, k + 1, lookup);
    } else {
      assert ms[..k] == ms;
    }
  }

  /** `process_messages`: append one record per message; an error aborts the batch. */
  method ProcessMessages(ms: seq<RawMessage>, lookup: string -> LookupOutcome)
    returns (r: Result<seq<UsageRecord>, Error>)
    ensures r == ProcessAll(ms, lookup)
  {
    var usage: seq<UsageRecord> := [];
    var i := 0;
    while i < |ms|
      invariant 0 <= i <= |ms|
      invariant ProcessAll(ms[..i], lookup) == Ok(usage)
    {
      var entry := ProcessMessage(ms[i], lookup);
      assert ms[..i + 1][..i] == ms[..i];
      if entry.Err? {
        ProcessAllErrorPersists(ms, i + 1, lookup);
        return Err(entry.error);
      }
      usage := usage + [entry.value];
      i := i + 1;
    }
    assert ms[..i] == ms;
    return Ok(usage);
  }

  /** A successful batch has no failing message. */
  lemma {:induction false} ProcessAllOkEach(ms: seq<RawMessage>, lookup: string -> LookupOutcome)
    requires ProcessAll(ms, lookup).Ok?
    ensures forall i :: 0 <= i < |ms| ==> Resolve(ms[i], lookup).Ok?
    decreases |ms|
  {
    if ms != [] {
      var n := |ms|;
      var init := ms[..n - 1];
      assert ProcessAll(init, lookup).Ok? && Resolve(ms[n - 1], lookup).Ok?;
      ProcessAllOkEach(init, lookup);
      forall i | 0 <= i < n ensures Resolve(ms[i], lookup).Ok? {
        if i < n - 1 {
          assert init[i] == ms[i];
        }
      }
    }
  }

  /** A batch of messages that each succeed succeeds. */
  lemma {:induction false} ProcessAllEachOk(ms: seq<RawMessage>, lookup: string -> LookupOutcome)
    requires forall i :: 0 <= i < |ms| ==> Resolve(ms[i], lookup).Ok?
    ensures ProcessAll(ms, lookup).Ok?
    decreases |ms|
  {
    if ms != [] {
      var n := |ms|;
      var init := ms[..n - 1];
      forall i | 0 <= i < n - 1 ensures init[i] == ms[i] { }
      ProcessAllEachOk(init, lookup);
    }
  }

  /** The batch succeeds exactly when every message does. */
  lemma ProcessAllSucceedsIffEach(ms: seq<RawMessage>, lookup: string -> LookupOutcome)
    ensures ProcessAll(ms, lookup).Ok? <==> forall i :: 0 <= i < |ms| ==> Resolve(ms[i], lookup).Ok?
  {
    if ProcessAll(ms, lookup).Ok? {
      ProcessAllOkEach(ms, lookup);
    }
    if forall i :: 0 <= i < |ms| ==> Resolve(ms[i], lookup).Ok? {
      ProcessAllEachOk(ms, lookup);
    }
  }

  /** A successful batch holds one record per message, in order, each the message's own record. */
  lemma {:induction false} ProcessAllRecords(ms: seq<RawMessage>, lookup: string -> LookupOutcome)
    requires ProcessAll(ms, lookup).Ok?
    ensures |ProcessAll(ms, lookup).value| == |ms|
    ensures forall i :: 0 <= i < |ms| ==>
      Resolve(ms[i], lookup).Ok? && ProcessAll(ms, lookup).value[i] == Resolve(ms[i], lookup).value
    decreases |ms|
  {
    if ms != [] {
      var n := |ms|;
      var init := ms[..n - 1];
      ProcessAllRecords(init, lookup);
      var rs := ProcessAll(init, lookup).value;
      assert ProcessAll(ms, lookup).value == rs + [Resolve(ms[n - 1], lookup).value];
      forall i | 0 <= i < n
        ensures Resolve(ms[i], lookup).Ok? && ProcessAll(ms, lookup).value[i] == Resolve(ms[i], lookup).value
      {
        if i < n - 1 {
          assert init[i] == ms[i];
        }
      }
    }
  }

  /** A failed batch fails with the error of its first failing message, and every message before it succeeds. */
  lemma {:induction false} ProcessAllFirstError(ms: seq<RawMessage>, lookup: string -> LookupOutcome)
    requires ProcessAll(ms, lookup).Err?
    ensures exists k :: (0 <= k < |ms| && Resolve(ms[k], lookup) == Err(ProcessAll(ms, lookup).error)
                         && forall j :: 0 <= j < k ==> Resolve(ms[j], lookup).Ok?)
    decreases |ms|
  {
    var n := |ms|;
    var init := ms[..n - 1];
    assert forall i :: 0 <= i < |init| ==> init[i] == ms[i];
    if ProcessAll(init, lookup).Err? {
      ProcessAllFirstError(init, lookup);
      var k :| 0 <= k < |init| && Resolve(init[k], lookup) == Err(ProcessAll(init, lookup).error)
        && (forall j :: 0 <= j < k ==> Resolve(init[j], lookup).Ok?);
      assert Resolve(ms[k], lookup) == Err(ProcessAll(ms, lookup).error);
    } else {
      ProcessAllSucceedsIffEach(init, lookup);
      assert Resolve(ms[n - 1], lookup) == Err(ProcessAll(ms, lookup).error);
    }
  }

  /**
   * Processing two batches one after the other is processing them joined:
   * the messages are independent of one another.
   */
  lemma {:induction false} ProcessAllAppend(a: seq<RawMessage>, b: seq<RawMessage>, lookup: string -> LookupOutcome)
    ensures ProcessAll(a + b, lookup) ==
      if ProcessAll(a, lookup).Err? then ProcessAll(a, lookup)
      else if ProcessAll(b, lookup).Err? then ProcessAll(b, lookup)
      else Ok(ProcessAll(a, lookup).value + ProcessAll(b, lookup).value)
    decreases |b|
  {
    if b == [] {
      assert a + b == a;
      if ProcessAll(a, lookup).Ok? {
        assert ProcessAll(a, lookup).value + [] == ProcessAll(a, lookup).value;
      }
    } else {
      var n := |b|;
      var init, last := b[..n - 1], b[n - 1];
      assert (a + b)[..|a + b| - 1] == a + init;
      assert (a + b)[|a + b| - 1] == last;
      ProcessAllAppend(a, init, lookup);
      var pa, pi := ProcessAll(a, lookup), ProcessAll(init, lookup);
      if pa.Ok? && pi.Ok? && Resolve(last, lookup).Ok? {
        var r := Resolve(last, lookup).value;
        assert ProcessAll(b, lookup) == Ok(pi.value + [r]);
        assert ProcessAll(a + b, lookup) == Ok(pa.value + pi.value + [r]);
        assert pa.value + pi.value + [r] == pa.value + (pi.value + [r]);
      }
    }
  }

  /** A message gets the same record in a batch as on its own (test_app.py:72-84 processes a batch of one). */
  lemma RecordInBatchIsRecordAlone(ms: seq<RawMessage>, i: nat, lookup: string -> LookupOutcome)
    requires i < |ms| && ProcessAll(ms, lookup).Ok?
    ensures ProcessAll([ms[i]], lookup).Ok? && |ProcessAll([ms[i]], lookup).value| == 1
    ensures |ProcessAll(ms, lookup).value| == |ms|
    ensures ProcessAll(ms, lookup).value[i] == ProcessAll([ms[i]], lookup).value[0]
  {
    ProcessAllRecords(ms, lookup);
    ProcessAllSucceedsIffEach([ms[i]], lookup);
    ProcessAllRecords([ms[i]], lookup);
  }
}
