/**
  The connection status of the bot: the module-level variables `currentQR`
  and `clientReady`, which the WhatsApp client's event handlers overwrite,
  and the two read-only views of them, `/health` and `/qr-text`.

  The status is specified on values (`Status`, `Step`, `Run`); the class
  `ConnectionState` holds the two variables and has one method per event,
  each proved to move the state exactly as `Step` says.
 */
module Connection {
  import opened JsValues

  /** The values of `currentQR` (`None` is `null`) and `clientReady`. */
  datatype Status = Status(qr: Option<string>, ready: bool)

  /** Both variables as the module initialises them. */
  const Start := Status(None, false)

  /** The client events the bot handles, in the order they are delivered.
      `Authenticated` is the first `authenticated` handler together with the
      second one when that runs without waiting. When the session store is
      configured, the second handler first waits for the session to be saved
      and writes the flags only when it resumes: `SessionSaveResumed` is that
      deferred write, which can land after later events. */
  datatype Event =
    | Qr(code: string)
    | Ready
    | Authenticated
    | SessionSaveResumed
    | AuthFailure(msg: string)
    | Disconnected(reason: string)

  /** The status never says "ready" while a QR code is still shown. */
  predicate Inv(s: Status)
  {
    s.ready ==> s.qr == None
  }

  /** The events after which the client is ready. */
  predicate SetsReady(e: Event)
  {
    e.Ready? || e.Authenticated? || e.SessionSaveResumed?
  }

  /** The effect of one event handler on the two variables. */
  function Step(s: Status, e: Event): (t: Status)
    ensures Inv(t)
    ensures t.ready <==> SetsReady(e)
  {
    match e
    case Qr(code) => Status(Some(code), false)
    case Ready => Status(None, true)
    case Authenticated => Status(None, true)
    case SessionSaveResumed => Status(None, true)
    case AuthFailure(_) => Status(None, false)
    case Disconnected(_) => s.(ready := false)
  }

  /** The status after a sequence of events, one handler after another. */
  function Run(s: Status, events: seq<Event>): (t: Status)
    decreases |events|
  {
    if events == [] then s else Run(Step(s, events[0]), events[1..])
  }

  /** An independent account of `currentQR`, read from the last event
      backwards: the code of the last `qr` event, unless an event that
      clears it came later; `disconnected` leaves it alone. */
  function LastQr(s: Status, events: seq<Event>): (r: Option<string>)
    decreases |events|
  {
    if events == [] then s.qr
    else
      match events[|events| - 1]
      case Qr(code) => Some(code)
      case Disconnected(_) => LastQr(s, events[..|events| - 1])
      case _ => None
  }

  /** Running a sequence and then one more event is one more step. */
  lemma {:induction false} RunSnoc(s: Status, events: seq<Event>, e: Event)
    ensures Run(s, events + [e]) == Step(Run(s, events), e)
    decreases |events|
  {
    if events == [] {
      assert [] + [e] == [e];
    } else {
      assert (events + [e])[1..] == events[1..] + [e];
      RunSnoc(Step(s, events[0]), events[1..], e);
    }
  }

  /** Every handler keeps the invariant, so every run from the start state
      keeps it. */
  lemma {:induction false} RunKeepsInv(s: Status, events: seq<Event>)
    requires Inv(s)
    ensures Inv(Run(s, events))
    decreases |events|
  {
    if events != [] {
      RunKeepsInv(Step(s, events[0]), events[1..]);
    }
  }

  /** After a non-empty run the client is ready exactly when the last event
      was `ready`, `authenticated` or the resumed session save. */
  lemma RunReady(s: Status, events: seq<Event>)
    requires events != []
    ensures Run(s, events).ready <==> SetsReady(events[|events| - 1])
  {
    var n := |events| - 1;
    assert events == events[..n] + [events[n]];
    RunSnoc(s, events[..n], events[n]);
  }

  /** `currentQR` after a run is the code of the last `qr` event that no
      later `ready`, `authenticated` or `auth_failure` cleared. */
  lemma {:induction false} RunQr(s: Status, events: seq<Event>)
    ensures Run(s, events).qr == LastQr(s, events)
    decreases |events|
  {
    if events != [] {
      var n := |events| - 1;
      assert events == events[..n] + [events[n]];
      RunSnoc(s, events[..n], events[n]);
      RunQr(s, events[..n]);
    }
  }

  /** The JSON body of `/health`, without its timestamp. */
  datatype HealthReport = HealthReport(status: string, whatsappReady: bool, hasQR: bool)

  /** `/health`: status `ok`, `clientReady` as it is, and `hasQR` exactly
      when a non-empty code is stored; under the invariant it never reports
      a code and readiness together. */
  function Health(s: Status): (r: HealthReport)
    ensures r.status == "ok" && (r.whatsappReady <==> s.ready)
    ensures r.hasQR <==> s.qr.Some? && s.qr.value != ""
    ensures Inv(s) ==> !(r.hasQR && r.whatsappReady)
  {
    HealthReport("ok", s.ready, StringTruthy(s.qr))
  }

  /** `/health` reports the status "ok", `clientReady` as it is, and whether
      a non-empty QR code is waiting; from the start state it never reports
      both a QR code and readiness. */
  lemma HealthReportsFlags(events: seq<Event>)
    ensures var s := Run(Start, events);
            var r := Health(s);
            && r.status == "ok"
            && (r.whatsappReady <==> s.ready)
            && (r.hasQR <==> LastQr(Start, events).Some? && LastQr(Start, events).value != "")
            && !(r.hasQR && r.whatsappReady)
  {
    RunQr(Start, events);
    RunKeepsInv(Start, events);
  }

  /** The JSON body of `/qr-text`. */
  datatype QrTextReply =
    | NoQrAvailable(clientReady: bool)            // {error, clientReady, hasQR: false}
    | QrAvailable(qrCode: string, clientReady: bool)  // {qrCode, hasQR: true, clientReady}

  /** `/qr-text`: the stored code when it is non-empty, otherwise the
      "no QR code" answer; `clientReady` as it is either way. */
  function QrText(s: Status): (r: QrTextReply)
    ensures r.QrAvailable? <==> s.qr.Some? && s.qr.value != ""
    ensures r.QrAvailable? ==> Some(r.qrCode) == s.qr
    ensures r.clientReady == s.ready
    ensures Inv(s) && r.QrAvailable? ==> !r.clientReady
  {
    if StringTruthy(s.qr) then QrAvailable(s.qr.value, s.ready) else NoQrAvailable(s.ready)
  }

  /** `/qr-text` hands out the code exactly when `/health` says there is
      one, and in a state that keeps the invariant a code is only handed
      out while the client is not ready. */
  lemma QrTextAgreesWithHealth(s: Status)
    ensures QrText(s).QrAvailable? <==> Health(s).hasQR
    ensures QrText(s).clientReady == Health(s).whatsappReady
    ensures QrText(s).QrAvailable? ==> Some(QrText(s).qrCode) == s.qr
    ensures Inv(s) && QrText(s).QrAvailable? ==> !QrText(s).clientReady
  {
  }

  /** The two variables, overwritten in place by the event handlers. */
  class ConnectionState {
    var currentQR: Option<string>
    var clientReady: bool

    function View(): Status
      reads this
    {
      Status(currentQR, clientReady)
    }

    predicate Valid()
      reads this
    {
      Inv(View())
    }

    constructor()
      ensures View() == Start && Valid()
    {
      currentQR := None;
      clientReady := false;
    }

    /** `qr`: show the new code, not ready. */
    method OnQr(qr: string)
      modifies this
      ensures View() == Step(old(View()), Qr(qr)) && Valid()
    {
      currentQR := Some(qr);
      clientReady := false;
    }

    /** `ready`: no code, ready. */
    method OnReady()
      modifies this
      ensures View() == Step(old(View()), Ready) && Valid()
    {
      currentQR := None;
      clientReady := true;
    }

    /** `authenticated`: no code, ready. */
    method OnAuthenticated()
      modifies this
      ensures View() == Step(old(View()), Authenticated) && Valid()
    {
      currentQR := None;
      clientReady := true;
    }

    /** The second `authenticated` handler resuming after the session save. */
    method OnSessionSaveResumed()
      modifies this
      ensures View() == Step(old(View()), SessionSaveResumed) && Valid()
    {
      currentQR := None;
      clientReady := true;
    }

    /** `auth_failure`: no code, not ready. */
    method OnAuthFailure(msg: string)
      modifies this
      ensures View() == Step(old(View()), AuthFailure(msg)) && Valid()
    {
      currentQR := None;
      clientReady := false;
    }

    /** `disconnected`: not ready; the code is left as it is. */
    method OnDisconnected(reason: string)
      modifies this
      ensures View() == Step(old(View()), Disconnected(reason))
      ensures old(Valid()) ==> Valid()
    {
      clientReady := false;
    }
  }
}
