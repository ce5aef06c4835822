/** What one detail request for a listing entry can come back as, and how
    the loop body sorts it. The status is looked at first: 429 ends the run,
    any status other than 200 is a failure without the body being read, and
    only a 200 body is decoded and searched for an `error` key. */
module Responses {
  import opened Records

  /** A 200 body as far as the loop reads it. */
  datatype Payload =
    | Unreadable                                  // json.loads or a field read raised
    | ErrorReport                                 // the decoded object has an `error` key
    | Fields(detail: Detail, genreNames: seq<string>)

  /** The reply to `GET <base>/<id>`, or the exception the request raised. */
  datatype Response =
    | Threw
    | Reply(status: int, payload: Payload)

  /** A status the loop neither aborts on nor decodes. */
  type OtherCode = c: int | c != 200 && c != 429 witness 404

  /** The loop body's reading of one response. */
  datatype Outcome =
    | RateLimited
    | OkError
    | OkRecord(detail: Detail, genreNames: seq<string>)
    | OtherStatus(status: OtherCode)
    | Raised

  /** Sorts a response the way the loop body's branches do. */
  function Classify(r: Response): (o: Outcome)
    ensures o.RateLimited? <==> r.Reply? && r.status == 429
    ensures o.OtherStatus? <==> r.Reply? && r.status != 200 && r.status != 429
    ensures o.OtherStatus? ==> o.status == r.status
    ensures o.Raised? <==> r.Threw? || (r.Reply? && r.status == 200 && r.payload.Unreadable?)
    ensures o.OkError? <==> r.Reply? && r.status == 200 && r.payload.ErrorReport?
    ensures o.OkRecord? <==> r.Reply? && r.status == 200 && r.payload.Fields?
    ensures o.OkRecord? ==> o.detail == r.payload.detail && o.genreNames == r.payload.genreNames
  {
    match r
    case Threw => Raised
    case Reply(status, payload) =>
      if status == 429 then RateLimited
      else if status == 200 then
        match payload
        case Unreadable => Raised
        case ErrorReport => OkError
        case Fields(d, g) => OkRecord(d, g)
      else OtherStatus(status)
  }
}
