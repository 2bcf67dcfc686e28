/**
 * What a report lookup can come back with. The HTTP request itself is not
 * modelled; `ClassifyStatus` is the decision `fetch_report` takes on the
 * status code of the response.
 */
module ReportLookup {
  import opened Common

  /**
   * The JSON object of a report: its `name` and `credit_cost` when present
   * and not null (the cost in cents), and `otherKeys`, which is true when the
   * object has any key besides a non-null `name` and a non-null
   * `credit_cost` (so `{"name": null}` is an object with another key).
   */
  datatype ReportData = ReportData(name: Option<string>, creditCost: Option<int>, otherKeys: bool)

  /** A Python dict is truthy when it has at least one key. */
  predicate IsNonEmpty(d: ReportData) {
    d.name.Some? || d.creditCost.Some? || d.otherKeys
  }

  /** The exceptions `fetch_report` raises, which end the whole request. */
  datatype FatalKind =
    | AccessForbidden
    | ServiceUnavailable
    | UnexpectedStatus(status: int)
    | RequestFailed

  /** The result of looking a report up: the report, no such report, or a fatal error. */
  datatype LookupOutcome = Found(data: ReportData) | NotFound | Fatal(kind: FatalKind)

  /**
   * The status branch of `fetch_report`: 200 gives the body, 404 means no
   * report, 403 and every status from 500 up are fatal, and so is any
   * other status.
   */
  function ClassifyStatus(status: int, body: ReportData): (o: LookupOutcome)
    ensures o.Found? <==> status == 200
    ensures o.Found? ==> o.data == body
    ensures o.NotFound? <==> status == 404
    ensures o == Fatal(AccessForbidden) <==> status == 403
    ensures o == Fatal(ServiceUnavailable) <==> status >= 500
    ensures o == Fatal(UnexpectedStatus(status)) <==> status !in {200, 403, 404} && status < 500
    ensures o != Fatal(RequestFailed)
  {
    if status == 200 then Found(body)
    else if status == 404 then NotFound
    else if status == 403 then Fatal(AccessForbidden)
    else if status >= 500 then Fatal(ServiceUnavailable)
    else Fatal(UnexpectedStatus(status))
  }
}
