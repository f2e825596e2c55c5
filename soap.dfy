/**
 * What the SOAP handlers share: the fault record xml.Unmarshal fills in,
 * the upstream exchange seen as an input, the outcome of a handler, and the
 * decision between reporting a fault and returning the cleaned payload.
 */
module Soap {
  import opened Http

  /**
   * SOAPFault after a successful xml.Unmarshal: faultcode, faultstring and
   * detail/EjbcaException/errorCode/internalErrorCode. Absent elements
   * decode as empty strings.
   */
  datatype Fault = Fault(faultcode: string, faultstring: string, errorCode: string)

  /**
   * Everything between building the request record and holding the reply
   * is I/O; the handler sees only how it ended.
   */
  datatype Exchange =
    | MarshalFailed(error: string)                   // xml.MarshalIndent returned an error
    | TransportFailed                                // loading the key pair, building, sending or reading failed
    | Received(body: string, parsed: Option<Fault>)  // the full reply; None when it does not decode as a SOAPFault

  /** How a handler invocation ends. */
  datatype Outcome<R> =
    | Rejected(reply: Reply)              // answered before any request record was built
    | Exited(request: R)                  // log.Fatalf: the whole process terminates, nothing is written
    | Replied(request: R, reply: Reply)   // the record was built and a reply was written

  /** The handlers' test: the reply decoded as a fault AND its faultcode is not empty. */
  predicate IsFault(parsed: Option<Fault>)
  {
    parsed.Some? && parsed.value.faultcode != ""
  }

  /** fmt.Sprintf("SOAP Fault: %s, ErrorCode: %s", faultstring, errorCode). */
  function FaultMessage(f: Fault): (m: string)
    ensures |m| == 25 + |f.faultstring| + |f.errorCode|
    ensures m[..12] == "SOAP Fault: "
    ensures m[12..12 + |f.faultstring|] == f.faultstring
    ensures m[12 + |f.faultstring|..25 + |f.faultstring|] == ", ErrorCode: "
    ensures m[25 + |f.faultstring|..] == f.errorCode
  {
    "SOAP Fault: " + f.faultstring + ", ErrorCode: " + f.errorCode
  }

  /**
   * The tail of GetLatestCRLHandler and ReqCertHandler: a fault becomes a
   * 500 carrying the formatted message, anything else is answered with the
   * cleaned body.
   */
  function FaultOrPayload(parsed: Option<Fault>, cleaned: string): (r: Reply)
    ensures r.status == StatusInternalServerError <==> IsFault(parsed)
    ensures r.status == StatusOK <==> !IsFault(parsed)
    ensures IsFault(parsed) ==> r.body == FaultMessage(parsed.value) + "\n"
    ensures !IsFault(parsed) ==> r.body == cleaned
  {
    if IsFault(parsed) then Error(FaultMessage(parsed.value), StatusInternalServerError)
    else Written(cleaned)
  }

  /** A fault reply does not depend on the upstream body at all. */
  lemma FaultHidesPayload(f: Fault, cleaned1: string, cleaned2: string)
    requires f.faultcode != ""
    ensures FaultOrPayload(Some(f), cleaned1) == FaultOrPayload(Some(f), cleaned2)
    ensures FaultOrPayload(Some(f), cleaned1).status == StatusInternalServerError
  {
  }

  /**
   * A decoded fault whose faultcode is empty is no fault: the reply is the
   * cleaned body, as when the reply did not decode at all, whatever the
   * faultstring says.
   */
  lemma EmptyFaultcodeIsNoFault(faultstring: string, errorCode: string, cleaned: string)
    ensures FaultOrPayload(Some(Fault("", faultstring, errorCode)), cleaned)
         == FaultOrPayload(None, cleaned)
         == Reply(StatusOK, cleaned)
  {
  }
}
