/**
 * handlers/latestCRL.go: the getLatestCRL request record, the generic
 * response cleaner and the handler's decision between fault and payload.
 */
module LatestCRL {
  import opened Http
  import opened Soap
  import Text

  /** The CA whose CRL is always asked for. */
  const CaName: string := "SUBCA_FIX2"

  /** The wrappers the CA puts around a getLatestCRL result. */
  const StartTag: string := "<soap:Envelope xmlns:soap=\"http://schemas.xmlsoap.org/soap/envelope/\"><soap:Body><ns2:getLatestCRLResponse xmlns:ns2=\"http://ws.protocol.core.ejbca.org/\"><return>"
  // (the leading "</" is a separate literal so that its two bytes are visible to proofs)
  const EndTag: string := "</" + "return></ns2:getLatestCRLResponse></soap:Body></soap:Envelope>"

  /** The ws:getLatestCRL arguments: arg0 the CA name, arg1 whether a delta CRL is wanted. */
  datatype GetLatestCRLReq = GetLatestCRLReq(arg0: string, arg1: bool)

  /**
   * cleanResponse: remove every occurrence of startTag, then every
   * occurrence of endTag from what is left.
   */
  function CleanResponse(body: string, startTag: string, endTag: string): (r: string)
    ensures |r| <= |body|
  {
    Text.RemoveAll(Text.RemoveAll(body, startTag), endTag)
  }

  /**
   * The body comes back exactly as it was if and only if neither wrapper
   * occurs in it: a reply whose wrappers differ from the expected ones in a
   * single byte is returned still wrapped.
   */
  lemma CleanResponseUnchangedIff(body: string, startTag: string, endTag: string)
    requires |startTag| > 0 && |endTag| > 0
    ensures CleanResponse(body, startTag, endTag) == body
        <==> !Text.Occurs(startTag, body) && !Text.Occurs(endTag, body)
  {
    var mid := Text.RemoveAll(body, startTag);
    if Text.Occurs(startTag, body) {
      Text.RemoveAllPresent(body, startTag);
    } else {
      Text.RemoveAllAbsent(body, startTag);
      Text.RemoveAllUnchangedIff(mid, endTag);
      if Text.Occurs(endTag, body) {
        Text.RemoveAllPresent(mid, endTag);
      }
    }
  }

  /**
   * A body that is exactly startTag + payload + endTag, with no other
   * occurrence of either wrapper, is unwrapped to exactly the payload.
   */
  lemma CleanResponseUnwraps(payload: string, startTag: string, endTag: string)
    requires |startTag| > 0 && |endTag| > 0
    requires !Text.Occurs(startTag, payload + endTag)
    requires !Text.Occurs(endTag, payload + endTag[..|endTag| - 1])
    ensures CleanResponse(startTag + payload + endTag, startTag, endTag) == payload
  {
    Text.TooShort(startTag, startTag[..|startTag| - 1]);
    Text.RemoveAllFirst([], payload + endTag, startTag);
    assert [] + startTag + (payload + endTag) == startTag + payload + endTag;
    Text.RemoveAllAbsent(payload + endTag, startTag);
    Text.RemoveAllFirst(payload, [], endTag);
    assert payload + endTag + [] == payload + endTag;
  }

  /**
   * The cleaner does not guarantee a wrapper-free result: an end wrapper
   * nested inside its own first byte and remainder survives the cleaning.
   */
  lemma CleanResponseLeavesNestedEndTag(startTag: string, endTag: string)
    requires |endTag| >= 2 && endTag[0] != endTag[1]
    requires |startTag| > 2 * |endTag|
    ensures CleanResponse([endTag[0]] + endTag + endTag[1..], startTag, endTag) == endTag
  {
    var body := [endTag[0]] + endTag + endTag[1..];
    Text.TooShort(startTag, body);
    Text.RemoveAllAbsent(body, startTag);
    Text.RemoveAllNested(endTag);
  }

  /** deltaCRL: true exactly when the form value is the string "true". */
  function DeltaCRL(form: Form): (delta: bool)
    ensures delta <==> "deltaCRL" in form && form["deltaCRL"] != [] && form["deltaCRL"][0] == "true"
  {
    FormValue(form, "deltaCRL") == "true"
  }

  /** "True", "1" and an absent value all ask for a full CRL. */
  lemma DeltaCRLOnlyLowercaseTrue(form: Form)
    ensures DeltaCRL(form - {"deltaCRL"}) == false
    ensures DeltaCRL(form["deltaCRL" := ["True"]]) == false
    ensures DeltaCRL(form["deltaCRL" := ["1"]]) == false
    ensures DeltaCRL(form["deltaCRL" := ["true"]]) == true
  {
  }

  /** The record sent upstream: a fixed CA name and the delta flag. */
  function BuildRequest(form: Form): (req: GetLatestCRLReq)
    ensures req.arg0 == "SUBCA_FIX2"
    ensures req.arg1 == DeltaCRL(form)
  {
    GetLatestCRLReq(CaName, DeltaCRL(form))
  }

  /** Whatever else the form holds, only its deltaCRL value reaches the request. */
  lemma RequestDependsOnlyOnDelta(form1: Form, form2: Form)
    requires FormValue(form1, "deltaCRL") == FormValue(form2, "deltaCRL")
    ensures BuildRequest(form1) == BuildRequest(form2)
  {
  }

  /**
   * GetLatestCRLHandler: form is None when r.ParseForm fails. Every failure
   * between marshalling and reading the reply ends in log.Fatalf.
   */
  function Handle(form: Option<Form>, exchange: Exchange): (o: Outcome<GetLatestCRLReq>)
    ensures o.Rejected? <==> form.None?
    ensures o.Rejected? ==> o.reply == Reply(StatusBadRequest, "Failed to parse form\n")
    ensures !o.Rejected? ==> o.request == BuildRequest(form.value)
    ensures o.Exited? <==> form.Some? && !exchange.Received?
    ensures o.Replied? ==> (o.reply.status == StatusInternalServerError <==> IsFault(exchange.parsed))
    ensures o.Replied? && !IsFault(exchange.parsed) ==>
              o.reply.body == CleanResponse(exchange.body, StartTag, EndTag)
    ensures o.Replied? ==> o.reply == FaultOrPayload(exchange.parsed, CleanResponse(exchange.body, StartTag, EndTag))
  {
    match form
    case None => Rejected(Error("Failed to parse form", StatusBadRequest))
    case Some(f) =>
      var request := BuildRequest(f);
      match exchange
      case Received(body, parsed) => Replied(request, FaultOrPayload(parsed, CleanResponse(body, StartTag, EndTag)))
      case _ => Exited(request)
  }

  /**
   * A fault with a faultcode is answered with 500 and the formatted message
   * only, whatever the upstream body holds.
   */
  lemma HandleReportsFault(form: Form, body: string, f: Fault)
    requires f.faultcode != ""
    ensures Handle(Some(form), Received(body, Some(f))).reply
         == Reply(StatusInternalServerError,
                  "SOAP Fault: " + f.faultstring + ", ErrorCode: " + f.errorCode + "\n")
  {
  }

  /**
   * A well-formed getLatestCRL reply that is not a fault is answered with
   * 200 and exactly the CRL text between the wrappers.
   */
  lemma HandleReturnsCrl(form: Form, crl: string, parsed: Option<Fault>)
    requires !IsFault(parsed)
    requires !Text.Occurs(StartTag, crl + EndTag)
    requires !Text.Occurs(EndTag, crl + EndTag[..|EndTag| - 1])
    ensures Handle(Some(form), Received(StartTag + crl + EndTag, parsed))
         == Replied(GetLatestCRLReq("SUBCA_FIX2", DeltaCRL(form)), Reply(StatusOK, crl))
  {
    CleanResponseUnwraps(crl, StartTag, EndTag);
  }

  /** The actual end wrapper, nested in itself, comes back to the client. */
  lemma HandleLeavesNestedEndTag(form: Form)
    ensures Handle(Some(form), Received([EndTag[0]] + EndTag + EndTag[1..], None)).reply
         == Reply(StatusOK, EndTag)
  {
    CleanResponseLeavesNestedEndTag(StartTag, EndTag);
  }
}
