/**
  The decisions of the two webhook routes: `/send-whatsapp`, which extracts
  the customer's number from a booking e-mail and sends the thank-you
  message, and `/test-extraction`, which only reports what would be sent.

  The WhatsApp client's `sendMessage` is abstract: a route decision records
  the calls it makes, and whether the (single) call succeeds or throws is an
  input, `SendOutcome`. Neither route reads the connection status.
 */
module Dispatch {
  import opened JsValues
  import opened Address

  /** How `client.sendMessage` ends: it resolves, or it throws an error
      with this message. */
  datatype SendOutcome = Delivered | Failed(message: string)

  /** One call `client.sendMessage(to, text)`. */
  datatype SendCall = SendCall(to: string, text: string)

  /** The JSON bodies the routes answer with. `Uncaught` is Express's own
      error page for an exception the handler does not catch. */
  datatype Reply =
    | Error(error: string)
    | ErrorDetails(error: string, details: string)
    | Sent(success: bool, message: string, phoneNumber: string)
    | Report(success: bool, extractedPhone: Option<string>, whatsappFormat: Option<string>, emailBodyPreview: string)
    | Uncaught

  datatype Response = Response(status: int, reply: Reply)

  /** The response together with the messages sent while producing it. */
  datatype Dispatched = Dispatched(response: Response, sends: seq<SendCall>)

  const ThanksMessage := "Thanks for the booking. \U{1F389}"

  /** `/send-whatsapp` for a request whose `emailBody` is `body`. A falsy
      body is refused before anything else. A truthy body that is not a
      string has no `match` method: the resulting TypeError reaches the
      outer `catch`, which answers 500. */
  function SendWhatsApp(body: JsonValue, outcome: SendOutcome): (d: Dispatched)
    ensures |d.sends| <= 1
    ensures d.sends != [] ==> d.sends[0].text == ThanksMessage
    ensures d.response.status in {200, 400, 500}
    ensures d.response.status == 200 <==> d.sends != [] && outcome.Delivered?
  {
    if !Truthy(body) then
      Dispatched(Response(400, Error("Email body is required")), [])
    else if !body.Str? then
      Dispatched(Response(500, Error("Internal server error")), [])
    else
      match ExtractPhoneNumber(body.s)
      case None =>
        Dispatched(Response(400, Error("No phone number found in email")), [])
      case Some(phone) =>
        var call := SendCall(FormatWhatsAppNumber(phone), ThanksMessage);
        match outcome
        case Delivered =>
          Dispatched(Response(200, Sent(true, "WhatsApp message sent successfully", phone)), [call])
        case Failed(m) =>
          Dispatched(Response(500, ErrorDetails("Failed to send WhatsApp message", m)), [call])
  }

  /** `emailBody.substring(0, 200) + '...'`. */
  function Preview(s: string): (p: string)
    ensures |p| >= 3 && p[|p| - 3..] == "..."
    ensures |p| - 3 <= |s| && p[..|p| - 3] == s[..|p| - 3]
    ensures |p| <= 203 && (|p| == 203 || |p| - 3 == |s|)
  {
    (if |s| <= 200 then s else s[..200]) + "..."
  }

  /** `/test-extraction`: the same guard and extraction, no send. A truthy
      non-string body throws outside any `try`. */
  function TestExtraction(body: JsonValue): (r: Response)
    ensures r.status in {200, 400, 500}
    ensures r.status == 400 <==> !Truthy(body)
    ensures r.status == 200 <==> Truthy(body) && body.Str?
    ensures r.status == 200 ==>
              r.reply.Report? && r.reply.success &&
              (r.reply.extractedPhone.Some? <==> r.reply.whatsappFormat.Some?)
    ensures r.status == 200 && r.reply.extractedPhone.Some? ==>
              var phone := r.reply.extractedPhone.value;
              |phone| >= 3 && phone[0] == '+' && r.reply.whatsappFormat == Some(phone[1..] + ChatSuffix)
    ensures r.status == 200 ==>
              r.reply.extractedPhone == ExtractPhoneNumber(body.s) && r.reply.emailBodyPreview == Preview(body.s)
  {
    if !Truthy(body) then
      Response(400, Error("Email body is required"))
    else if !body.Str? then
      Response(500, Uncaught)
    else
      var phone := ExtractPhoneNumber(body.s);
      assert phone.Some? ==> FormatWhatsAppNumber(phone.value) == phone.value[1..] + ChatSuffix by {
        if phone.Some? { FormatExtracted(body.s); }
      }
      Response(200, Report(true, phone,
                           if phone.Some? then Some(FormatWhatsAppNumber(phone.value)) else None,
                           Preview(body.s)))
  }

  /** The two routes agree: `/send-whatsapp` sends exactly when
      `/test-extraction` reports a number, and it sends to the address that
      report shows; both refuse the same falsy bodies. */
  lemma SendAgreesWithTestExtraction(body: JsonValue, outcome: SendOutcome)
    ensures var d := SendWhatsApp(body, outcome);
            var t := TestExtraction(body);
            && (d.sends != [] <==> t.reply.Report? && t.reply.extractedPhone.Some?)
            && (d.sends != [] ==> Some(d.sends[0].to) == t.reply.whatsappFormat)
            && (d.response.status == 400 && d.response.reply == Error("Email body is required") <==> t.status == 400)
  {
  }

  /** A 400 answer is given exactly when the body is falsy, or is a string in
      which one of the two markers has no match; no message is sent then. */
  lemma RefusedExactlyWithoutMarkers(body: JsonValue, outcome: SendOutcome)
    ensures var d := SendWhatsApp(body, outcome);
            (d.response.status == 400 <==>
              !Truthy(body) ||
              (body.Str? && (Match(body.s, CountryCode).None? || Match(body.s, Phone).None?)))
    ensures SendWhatsApp(body, outcome).response.status == 400 ==> SendWhatsApp(body, outcome).sends == []
  {
    if body.Str? {
      ExtractPhoneNumberSpec(body.s);
    }
  }

  /** Whenever a number is found, exactly one message is sent, to that number
      with the `+` dropped and `@c.us` appended, whatever the outcome; a
      delivered message answers 200 with the number as extracted, a failed
      one answers 500 with the error's message and is not retried. */
  lemma SendsOnceWhenFound(s: string, outcome: SendOutcome)
    requires s != [] && ExtractPhoneNumber(s).Some?
    ensures var phone := ExtractPhoneNumber(s).value;
            var d := SendWhatsApp(Str(s), outcome);
            && d.sends == [SendCall(phone[1..] + ChatSuffix, ThanksMessage)]
            && phone[0] == '+' && (forall i :: 1 <= i < |phone| ==> IsDigit(phone[i]))
            && (outcome.Delivered? ==> d.response == Response(200, Sent(true, "WhatsApp message sent successfully", phone)))
            && (outcome.Failed? ==> d.response == Response(500, ErrorDetails("Failed to send WhatsApp message", outcome.message)))
  {
    FormatExtracted(s);
  }

  /** A truthy body that is not a string never reaches the client. */
  lemma NonStringBodyNotSent(body: JsonValue, outcome: SendOutcome)
    requires Truthy(body) && !body.Str?
    ensures SendWhatsApp(body, outcome) == Dispatched(Response(500, Error("Internal server error")), [])
    ensures TestExtraction(body).status == 500
  {
  }
}
