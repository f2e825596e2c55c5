/**
 * handlers/reqCert.go: the pkcs12Req request record, the keystore
 * response cleaner and the handler's decision between fault and payload.
 */
module ReqCert {
  import opened Http
  import opened Soap
  import Text
  import LatestCRL

  /** The wrappers the CA puts around a pkcs12Req result's keystoreData. */
  const StartTag: string := "<soap:Envelope xmlns:soap=\"http://schemas.xmlsoap.org/soap/envelope/\"><soap:Body><ns2:pkcs12ReqResponse xmlns:ns2=\"http://ws.protocol.core.ejbca.org/\"><return><type>0</type><keystoreData>"
  // (the leading "</" is a separate literal so that its two bytes are visible to proofs)
  const EndTag: string := "</" + "keystoreData></return></ns2:pkcs12ReqResponse></soap:Body></soap:Envelope>"

  /** The ws:pkcs12Req arguments. */
  datatype Pkcs12Request = Pkcs12Request(
    arg0: string,  // username
    arg1: string,  // password
    arg2: string,
    arg3: string,
    arg4: string)

  /**
   * cleanReqCertResponse: the same two removals, in the same order, as
   * LatestCRL.CleanResponse, with the pkcs12ReqResponse wrappers.
   */
  function CleanReqCertResponse(body: string): (r: string)
    ensures r == LatestCRL.CleanResponse(body, StartTag, EndTag)
    ensures |r| <= |body|
  {
    var response := Text.RemoveAll(body, StartTag);
    Text.RemoveAll(response, EndTag)
  }

  /** The body comes back unchanged exactly when neither wrapper occurs in it. */
  lemma CleanReqCertResponseUnchangedIff(body: string)
    ensures CleanReqCertResponse(body) == body
        <==> !Text.Occurs(StartTag, body) && !Text.Occurs(EndTag, body)
  {
    LatestCRL.CleanResponseUnchangedIff(body, StartTag, EndTag);
  }

  /** A reply that is exactly the wrappers around keystoreData yields that data. */
  lemma CleanReqCertResponseUnwraps(keystoreData: string)
    requires !Text.Occurs(StartTag, keystoreData + EndTag)
    requires !Text.Occurs(EndTag, keystoreData + EndTag[..|EndTag| - 1])
    ensures CleanReqCertResponse(StartTag + keystoreData + EndTag) == keystoreData
  {
    LatestCRL.CleanResponseUnwraps(keystoreData, StartTag, EndTag);
  }

  /**
   * The record sent upstream: the caller's username and password, and
   * three fixed profile and algorithm names.
   */
  function BuildRequest(form: Form): (req: Pkcs12Request)
    ensures req.arg0 == FormValue(form, "username")
    ensures req.arg1 == FormValue(form, "password")
    ensures req.arg2 == "RSA_TTE-Doc" && req.arg3 == "RSA_enduser" && req.arg4 == "RSA"
  {
    Pkcs12Request(
      FormValue(form, "username"),
      FormValue(form, "password"),
      "RSA_TTE-Doc",
      "RSA_enduser",
      "RSA")
  }

  /** Only the username and password values of the form reach the request. */
  lemma RequestDependsOnlyOnCredentials(form1: Form, form2: Form)
    ensures BuildRequest(form1) == BuildRequest(form2)
        <==> (FormValue(form1, "username") == FormValue(form2, "username")
              && FormValue(form1, "password") == FormValue(form2, "password"))
  {
  }

  /**
   * ReqCertHandler: form is None when r.ParseForm fails. Every failure
   * between marshalling and reading the reply ends in log.Fatalf.
   */
  function Handle(form: Option<Form>, exchange: Exchange): (o: Outcome<Pkcs12Request>)
    ensures o.Rejected? <==> form.None?
    ensures o.Rejected? ==> o.reply == Reply(StatusBadRequest, "Failed to parse form\n")
    ensures !o.Rejected? ==> o.request == BuildRequest(form.value)
    ensures o.Exited? <==> form.Some? && !exchange.Received?
    ensures o.Replied? ==> (o.reply.status == StatusInternalServerError <==> IsFault(exchange.parsed))
    ensures o.Replied? && !IsFault(exchange.parsed) ==>
              o.reply.body == CleanReqCertResponse(exchange.body)
    ensures o.Replied? ==> o.reply == FaultOrPayload(exchange.parsed, CleanReqCertResponse(exchange.body))
  {
    match form
    case None => Rejected(Error("Failed to parse form", StatusBadRequest))
    case Some(f) =>
      var request := BuildRequest(f);
      match exchange
      case Received(body, parsed) => Replied(request, FaultOrPayload(parsed, CleanReqCertResponse(body)))
      case _ => Exited(request)
  }

  /**
   * A fault with a faultcode is answered with 500 and the formatted message
   * only, whatever the upstream body holds.
   */
  lemma HandleReportsFault(form: Form, body: string, f: Fault)
    requires f.faultcode != ""
    ensures Handle(Some(form), Received(body, Some(f))).reply
         == Reply(StatusInternalServerError,
                  "SOAP Fault: " + f.faultstring + ", ErrorCode: " + f.errorCode + "\n")
  {
  }

  /**
   * A well-formed pkcs12Req reply whose decoded faultcode is empty is
   * answered with 200 and exactly the keystore data, even when a
   * faultstring was decoded.
   */
  lemma HandleReturnsKeystore(form: Form, keystoreData: string, faultstring: string, errorCode: string)
    requires !Text.Occurs(StartTag, keystoreData + EndTag)
    requires !Text.Occurs(EndTag, keystoreData + EndTag[..|EndTag| - 1])
    ensures Handle(Some(form), Received(StartTag + keystoreData + EndTag, Some(Fault("", faultstring, errorCode))))
         == Replied(BuildRequest(form), Reply(StatusOK, keystoreData))
  {
    CleanReqCertResponseUnwraps(keystoreData);
  }

  /** The actual end wrapper, nested in itself, comes back to the client. */
  lemma HandleLeavesNestedEndTag(form: Form)
    ensures Handle(Some(form), Received([EndTag[0]] + EndTag + EndTag[1..], None)).reply
         == Reply(StatusOK, EndTag)
  {
    LatestCRL.CleanResponseLeavesNestedEndTag(StartTag, EndTag);
  }
}
