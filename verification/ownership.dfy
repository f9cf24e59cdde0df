/** The ownership check as the product and chart services call it: ask the
    inventory service's `/checkInventory/<id>` and read its status code. The
    inventory service's answer is an input; `InventoryService.CheckInventory`
    computes what it would be. */
module Ownership {
  import opened Common

  /** The inventory service's status code, or the transport failure instead. */
  datatype CheckReply = CheckAnswer(status: int) | CheckUnreachable(reason: string)

  /** `Success(owned)` for the three expected codes; `Failure` where the source
      raises, which no caller catches, so the calling handler answers 500. */
  function Interpret(reply: CheckReply): (r: Result<bool, string>)
    ensures r == Success(true) <==> reply == CheckAnswer(OK)
    ensures r == Success(false) <==> reply == CheckAnswer(Forbidden) || reply == CheckAnswer(NotFound)
    ensures r.Failure? <==> reply.CheckUnreachable? || reply.status !in {OK, Forbidden, NotFound}
  {
    match reply
    case CheckUnreachable(reason) => Failure("Error occurred while contacting inventory service: " + reason)
    case CheckAnswer(status) =>
      if status == OK then Success(true)
      else if status == Forbidden || status == NotFound then Success(false)
      else Failure("Error checking inventory: unexpected response")
  }
}
