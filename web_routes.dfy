/**
 The decision of the `/toggle-led` request handler: which response it sends
 and what, if anything, it writes to the LED pin.
 */
module WebRoutes {

  /** An HTTP response: status code, content type and body. */
  datatype Response = Response(status: int, contentType: string, body: string)

  /** What a `/toggle-led` request asks of the LED pin. */
  datatype LedCommand = MissingState | Drive(high: bool)

  /** The name of the query parameter `/toggle-led` reads. */
  const STATE_PARAM: string := "state"

  /** The request's decision: no `state` is an error; only `state == "1"` means HIGH. */
  function LedCommandOf(params: map<string, string>): LedCommand
  {
    if STATE_PARAM !in params then MissingState else Drive(params[STATE_PARAM] == "1")
  }

  /** The response sent for a decision. */
  function LedResponse(c: LedCommand): Response
  {
    match c
    case MissingState => Response(400, "text/plain", "Missing 'state' parameter")
    case Drive(high) => Response(200, "text/plain", if high then "LED turned ON" else "LED turned OFF")
  }

  /** The pin writes made for a decision, HIGH being `true`. */
  function LedWrites(c: LedCommand): seq<bool>
  {
    match c
    case MissingState => []
    case Drive(high) => [high]
  }

  /**
   A request without `state` gets status 400 and writes nothing; every request
   with it gets 200 and writes the pin exactly once, HIGH iff the value is
   exactly "1" (so "0", "true", "" and every other value write LOW); and the
   response text reports the level actually written.
   */
  lemma ToggleLedDecision(params: map<string, string>)
    ensures var c := LedCommandOf(params);
      && (LedWrites(c) == [] <==> STATE_PARAM !in params)
      && (LedResponse(c).status == 400 <==> LedWrites(c) == [])
      && (LedResponse(c).status == 200 <==> |LedWrites(c)| == 1)
      && (LedWrites(c) == [true] <==> STATE_PARAM in params && params[STATE_PARAM] == "1")
      && (LedWrites(c) == [false] <==> STATE_PARAM in params && params[STATE_PARAM] != "1")
      && (LedResponse(c).body == "LED turned ON" <==> LedWrites(c) == [true])
      && (LedResponse(c).body == "LED turned OFF" <==> LedWrites(c) == [false])
  {
  }
}
