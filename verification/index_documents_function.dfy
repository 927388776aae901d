/** `IndexDocumentsFunction.Run`: the HTTP trigger of the ingestion. It
    validates the request, hands it to the ingestion once, and maps the
    outcome to a response. The ingestion is the parameter `process`, giving
    the exception it ends with, if any. */
module IndexDocumentsFunction {
  import opened Wrappers
  import opened Numbers
  import opened Domain

  /** The responses the function returns. */
  datatype Response = BadRequest(message: string) | Ok(message: string) | StatusCode(code: int)

  const NoIdsMessage: string := "No ids provided."
  const OkPrefix: string := "Indexing request successfully processed "
  const OkSuffix: string := " documents."
  const InternalServerError: int := 500

  /** The text of the success response for `count` ids. */
  function OkMessage(count: int): string {
    OkPrefix + IntToString(count) + OkSuffix
  }

  /** A request that carries at least one id. */
  predicate HasIds(request: Option<IndexingRequest>) {
    request.Some? && request.value.ids.Some? && |request.value.ids.value| > 0
  }

  /** The response and the requests handed to the ingestion. */
  datatype RunOutcome = RunOutcome(response: Response, processed: seq<IndexingRequest>)

  /** `Run`. No ids, whether the request, its list or the list's content
      is missing, gives a bad request and no ingestion. Otherwise the
      ingestion runs once on the request; if it throws, the answer is a
      500, and if not, an OK naming the number of ids submitted. */
  function Run(request: Option<IndexingRequest>, process: IndexingRequest -> Option<Error>): (o: RunOutcome)
    ensures !HasIds(request) <==> o.response == BadRequest(NoIdsMessage)
    ensures !HasIds(request) <==> o.processed == []
    ensures HasIds(request) ==> o.processed == [request.value]
    ensures HasIds(request) ==>
              (o.response == StatusCode(InternalServerError) <==> process(request.value).Some?)
    ensures HasIds(request) && process(request.value).None? ==>
              o.response == Ok(OkMessage(|request.value.ids.value|))
  {
    if !HasIds(request) then RunOutcome(BadRequest(NoIdsMessage), [])
    else if process(request.value).Some? then RunOutcome(StatusCode(InternalServerError), [request.value])
    else RunOutcome(Ok(OkMessage(|request.value.ids.value|)), [request.value])
  }

  /** The number in a success message reads back: it is the count of ids
      submitted. */
  lemma OkMessageCount(count: int)
    ensures var m := OkMessage(count);
      && |m| >= |OkPrefix| + |OkSuffix|
      && ParseInt(m[|OkPrefix|..|m| - |OkSuffix|]) == Some(count)
  {
    var m := OkMessage(count);
    assert m[|OkPrefix|..|m| - |OkSuffix|] == IntToString(count);
    IntToStringRoundTrip(count);
  }

  /** The success message counts the ids submitted, whatever the ingestion
      did with them: two runs on requests with as many ids give the same
      answer when neither throws. */
  lemma OkMessageIgnoresOutcome(r1: IndexingRequest, r2: IndexingRequest,
                                p1: IndexingRequest -> Option<Error>, p2: IndexingRequest -> Option<Error>)
    requires HasIds(Some(r1)) && HasIds(Some(r2)) && |r1.ids.value| == |r2.ids.value|
    requires p1(r1).None? && p2(r2).None?
    ensures Run(Some(r1), p1).response == Run(Some(r2), p2).response
  {
  }
}
