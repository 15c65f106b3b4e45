/** What a route handler sees of the outside world and what it sends back.
    The hosted inference service is not called: each handler receives, as a
    parameter, what the service would answer to its one or two calls, and
    returns the calls it made together with the HTTP response. */
module Http {
  import opened Js
  import opened Ranking

  /** The result of awaiting one remote call, or of a step of a handler
      that may throw: it threw, or it returned a value. */
  datatype Remote<T> = Threw | Returned(value: T)

  /** A request to the inference service, with the model it names and the
      note it forwards as `inputs`. */
  datatype Call =
    | TextClassification(model: string, inputs: JsValue)
    | Summarization(model: string, inputs: JsValue)
    | ZeroShotClassification(model: string, inputs: JsValue, candidateLabels: seq<string>)

  /** The JSON body of a response. */
  datatype Body =
    | ErrorBody(error: string)
    | AnalysisBody(sentiment: string, keywords: seq<string>)
    | CategoriesBody(categories: seq<Scored>)

  /** `NextResponse.json(body, { status })`; the status defaults to 200. */
  datatype Response = Response(status: int, body: Body)

  /** One invocation of a handler: the remote calls it made, in order, and
      what it answered. */
  datatype Exchange = Exchange(calls: seq<Call>, response: Response)

  const NoteRequired := "Note is required"

  /** The answer both handlers give to a falsy note. */
  function BadRequest(): (r: Response)
    ensures r.status == 400 && r.body.ErrorBody? && r.body.error == NoteRequired
  {
    Response(400, ErrorBody(NoteRequired))
  }
}
